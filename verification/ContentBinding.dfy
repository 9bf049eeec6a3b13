/** What equality of content hashes says about two documents. */
module ContentBinding {
  import opened Bytes
  import opened Merkle
  import opened PortableCodec
  import opened RevisionChain

  lemma SplitPrefixed(a: Str, b: Str, x: seq<Byte>, y: seq<Byte>)
    requires |a| < U32 && |b| < U32 && LenPrefixed(a) + x == LenPrefixed(b) + y
    ensures a == b && x == y
  {
    hide LeBytes, Pow256;
    var l, m := LenPrefixed(a) + x, LenPrefixed(b) + y;
    assert l[..4] == LeBytes(|a|, 4) && m[..4] == LeBytes(|b|, 4);
    Widths();
    LeRoundTrip(|a|, 4);
    LeRoundTrip(|b|, 4);
    assert l[4..4 + |a|] == a && m[4..4 + |b|] == b;
    assert l[4 + |a|..] == x && m[4 + |b|..] == y;
  }

  predicate ShortTriple(t: Triple) {
    |t.0| < U32 && |t.1| < U32 && |t.2| < U32
  }

  lemma SplitTriple(t: Triple, u: Triple, x: seq<Byte>, y: seq<Byte>)
    requires ShortTriple(t) && ShortTriple(u) && !IsProvenance(t.1) && !IsProvenance(u.1)
    requires TripleContent(t) + x == TripleContent(u) + y
    ensures t == u && x == y
  {
    hide LenPrefixed, IsProvenance;
    assert LenPrefixed(t.0) + (LenPrefixed(t.1) + (LenPrefixed(t.2) + x)) == TripleContent(t) + x;
    assert LenPrefixed(u.0) + (LenPrefixed(u.1) + (LenPrefixed(u.2) + y)) == TripleContent(u) + y;
    SplitPrefixed(t.0, u.0, LenPrefixed(t.1) + (LenPrefixed(t.2) + x), LenPrefixed(u.1) + (LenPrefixed(u.2) + y));
    SplitPrefixed(t.1, u.1, LenPrefixed(t.2) + x, LenPrefixed(u.2) + y);
    SplitPrefixed(t.2, u.2, x, y);
  }

  lemma SplitCommand(c: Command, e: Command, x: seq<Byte>, y: seq<Byte>)
    requires |c.content| < U32 && |e.content| < U32
    requires CommandContent(c) + x == CommandContent(e) + y
    ensures c == e && x == y
  {
    hide LeBytes, LenPrefixed, Pow256;
    var l, m := CommandContent(c) + x, CommandContent(e) + y;
    CommandHead(c, x);
    CommandHead(e, y);
    Widths();
    LeRoundTrip(c.color, 4);
    LeRoundTrip(e.color, 4);
    LeRoundTrip(c.x, 2);
    LeRoundTrip(e.x, 2);
    LeRoundTrip(c.y, 2);
    LeRoundTrip(e.y, 2);
    LeRoundTrip(c.w, 2);
    LeRoundTrip(e.w, 2);
    LeRoundTrip(c.h, 2);
    LeRoundTrip(e.h, 2);
    SplitPrefixed(c.content, e.content, x, y);
  }

  lemma CommandHead(c: Command, x: seq<Byte>)
    ensures var l := CommandContent(c) + x;
            && |l| >= 13 && l[0] == c.kind && l[1..5] == LeBytes(c.color, 4) && l[5..7] == LeBytes(c.x, 2)
            && l[7..9] == LeBytes(c.y, 2) && l[9..11] == LeBytes(c.w, 2) && l[11..13] == LeBytes(c.h, 2)
            && l[13..] == LenPrefixed(c.content) + x
  {
    hide LeBytes, LenPrefixed;
  }

  predicate ShortDoc(d: Doc) {
    && (forall i :: 0 <= i < |d.triples| ==> ShortTriple(d.triples[i]))
    && (forall i :: 0 <= i < |d.commands| ==> |d.commands[i].content| < U32)
  }

  /** The content triples of a document, in order. */
  function Content(ts: seq<Triple>): (us: seq<Triple>)
    ensures |us| == ContentTriples(ts)
  {
    if ts == [] then []
    else if IsProvenance(ts[0].1) then Content(ts[1..])
    else [ts[0]] + Content(ts[1..])
  }

  lemma {:induction false} ContentFacts(ts: seq<Triple>)
    ensures TriplesContent(Content(ts)) == TriplesContent(ts)
    ensures forall i :: 0 <= i < |Content(ts)| ==> Content(ts)[i] in ts && !IsProvenance(Content(ts)[i].1)
  {
    hide IsProvenance;
    if ts != [] {
      ContentFacts(ts[1..]);
      if !IsProvenance(ts[0].1) {
        assert Content(ts)[1..] == Content(ts[1..]);
      }
    }
  }

  lemma {:induction false} SplitTriples(ts: seq<Triple>, us: seq<Triple>, x: seq<Byte>, y: seq<Byte>)
    requires |ts| == |us| && TriplesContent(ts) + x == TriplesContent(us) + y
    requires forall i :: 0 <= i < |ts| ==> ShortTriple(ts[i]) && !IsProvenance(ts[i].1)
    requires forall i :: 0 <= i < |us| ==> ShortTriple(us[i]) && !IsProvenance(us[i].1)
    ensures ts == us && x == y
  {
    hide IsProvenance, TripleContent;
    if ts == [] {
      assert TriplesContent(ts) + x == x && TriplesContent(us) + y == y;
    } else {
      assert TripleContent(ts[0]) + (TriplesContent(ts[1..]) + x) == TriplesContent(ts) + x;
      assert TripleContent(us[0]) + (TriplesContent(us[1..]) + y) == TriplesContent(us) + y;
      SplitTriple(ts[0], us[0], TriplesContent(ts[1..]) + x, TriplesContent(us[1..]) + y);
      SplitTriples(ts[1..], us[1..], x, y);
      assert ts == [ts[0]] + ts[1..] && us == [us[0]] + us[1..];
    }
  }

  lemma {:induction false} SplitCommands(cs: seq<Command>, es: seq<Command>)
    requires CommandsContent(cs) == CommandsContent(es)
    requires forall i :: 0 <= i < |cs| ==> |cs[i].content| < U32
    requires forall i :: 0 <= i < |es| ==> |es[i].content| < U32
    ensures cs == es
  {
    hide CommandContent;
    if cs == [] || es == [] {
      CommandNotEmpty(cs);
      CommandNotEmpty(es);
    } else {
      SplitCommand(cs[0], es[0], CommandsContent(cs[1..]), CommandsContent(es[1..]));
      SplitCommands(cs[1..], es[1..]);
      assert cs == [cs[0]] + cs[1..] && es == [es[0]] + es[1..];
    }
  }

  lemma CommandNotEmpty(cs: seq<Command>)
    ensures CommandsContent(cs) == [] ==> cs == []
  {
    if cs != [] {
      assert |CommandContent(cs[0])| > 0;
    }
  }

  ghost predicate SameContent(a: Doc, b: Doc) {
    Content(a.triples) == Content(b.triples) && a.commands == b.commands
  }

  /** Documents with equal content bytes have equal content exactly when they have equally many content triples. */
  lemma ContentBytesBindIff(a: Doc, b: Doc)
    requires ShortDoc(a) && ShortDoc(b) && ContentBytes(a) == ContentBytes(b)
    ensures SameContent(a, b) <==> ContentTriples(a.triples) == ContentTriples(b.triples)
  {
    hide IsProvenance, TriplesContent, CommandsContent, Content, ContentTriples;
    if ContentTriples(a.triples) == ContentTriples(b.triples) {
      ContentFacts(a.triples);
      ContentFacts(b.triples);
      SplitTriples(Content(a.triples), Content(b.triples), CommandsContent(a.commands), CommandsContent(b.commands));
      SplitCommands(a.commands, b.commands);
    } else {
      assert |Content(a.triples)| != |Content(b.triples)|;
    }
  }

  /** Equal content hashes: equal content exactly when the triple counts are equal, or the hash collides. */
  lemma ContentHashBinds(h: Hash, a: Doc, b: Doc)
    requires ShortDoc(a) && ShortDoc(b) && ContentHash(h, a) == ContentHash(h, b)
    ensures (SameContent(a, b) <==> ContentTriples(a.triples) == ContentTriples(b.triples))
            || Collision(h, (ContentBytes(a), ContentBytes(b)))
  {
    hide ShortDoc, SameContent, ContentTriples, ContentBytes;
    if ContentBytes(a) == ContentBytes(b) { ContentBytesBindIff(a, b); }
  }

  /** Equal content means equal content bytes, whatever provenance the documents carry. */
  lemma SameContentBytes(a: Doc, b: Doc)
    requires SameContent(a, b)
    ensures ContentBytes(a) == ContentBytes(b) && ContentTriples(a.triples) == ContentTriples(b.triples)
  {
    hide IsProvenance, TriplesContent, CommandsContent, Content, ContentTriples;
    ContentFacts(a.triples);
    ContentFacts(b.triples);
    assert |Content(a.triples)| == |Content(b.triples)|;
  }

  /** The latest revision of `now` recorded the content of `committed`. */
  ghost predicate LatestRecords(h: Hash, now: Doc, committed: Doc) {
    var revs := Revisions(now.triples);
    revs != [] && revs[|revs| - 1].contentHash == Hex(ContentHash(h, committed))
  }

  /** The delta reports no change exactly when the content bytes are those committed, or the hash collides on them. */
  lemma UnchangedIff(h: Hash, committed: Doc, now: Doc)
    requires LatestRecords(h, now, committed)
    ensures !UncommittedDelta(h, now).changed
            <==> ContentBytes(committed) == ContentBytes(now) || Collision(h, (ContentBytes(committed), ContentBytes(now)))
  {
    hide Revisions, ContentTriples, Hex, ContentBytes;
    if !UncommittedDelta(h, now).changed { HexInjective(ContentHash(h, committed), ContentHash(h, now)); }
  }

  /**
    What an "unchanged" report is worth: the content is the committed one exactly when the count of content
    triples is, or the hash collides.
   */
  lemma UnchangedMeansUnchanged(h: Hash, committed: Doc, now: Doc)
    requires ShortDoc(committed) && ShortDoc(now) && LatestRecords(h, now, committed)
    requires !UncommittedDelta(h, now).changed
    ensures (SameContent(committed, now) <==> ContentTriples(committed.triples) == ContentTriples(now.triples))
            || Collision(h, (ContentBytes(committed), ContentBytes(now)))
  {
    hide LatestRecords, ContentTriples, ContentBytes, SameContent, ShortDoc;
    UnchangedIff(h, committed, now);
    if ContentBytes(committed) == ContentBytes(now) { ContentBytesBindIff(committed, now); }
  }

  // ----- why the counts must agree

  function BlankTriples(n: nat): seq<Triple> {
    seq(n, _ => ([], [], []))
  }

  function BlankCommands(n: nat): seq<Command> {
    seq(n, _ => Command(0, 0, 0, 0, 0, 0, []))
  }

  /** Without equal counts nothing is bound: triples can spell the bytes of commands, under any hash. */
  lemma TriplesCanSpellCommands(h: Hash)
    ensures var a, b := Doc(BlankTriples(17), []), Doc([], BlankCommands(12));
            a != b && ContentHash(h, a) == ContentHash(h, b)
  {
    hide TriplesContent, CommandsContent;
    BlankTriplesContent(17);
    BlankCommandsContent(12);
    assert TriplesContent([]) == [] && CommandsContent([]) == [] by { NoContent(); }
    var a, b := Doc(BlankTriples(17), []), Doc([], BlankCommands(12));
    assert ContentBytes(a) == Zeros(204) && ContentBytes(b) == Zeros(204);
  }

  lemma NoContent()
    ensures TriplesContent([]) == [] && CommandsContent([]) == []
  {
  }

  lemma {:induction false} ZeroBytes(k: nat)
    ensures LeBytes(0, k) == Zeros(k)
  {
    if k > 0 { ZeroBytes(k - 1); }
  }

  lemma {:induction false} BlankTriplesContent(n: nat)
    ensures TriplesContent(BlankTriples(n)) == Zeros(12 * n)
  {
    if n > 0 {
      BlankTriplesContent(n - 1);
      assert BlankTriples(n)[0] == ([], [], []) && BlankTriples(n)[1..] == BlankTriples(n - 1);
      ZeroBytes(4);
      assert TripleContent(([], [], [])) == Zeros(12);
    }
  }

  lemma {:induction false} BlankCommandsContent(n: nat)
    ensures CommandsContent(BlankCommands(n)) == Zeros(17 * n)
  {
    if n > 0 {
      BlankCommandsContent(n - 1);
      assert BlankCommands(n)[1..] == BlankCommands(n - 1);
      ZeroBytes(4);
      ZeroBytes(2);
      assert CommandContent(Command(0, 0, 0, 0, 0, 0, [])) == Zeros(17);
    }
  }

  // ----- before the first commit

  lemma {:induction false} CountedIsWritten(ts: seq<Triple>)
    ensures ContentTriples(ts) > 0 <==> TriplesContent(ts) != []
  {
    hide LeBytes, IsProvenance;
    if ts != [] {
      CountedIsWritten(ts[1..]);
    }
  }

  /** With no revision yet, a document counts as changed exactly when it has any content at all. */
  lemma UncommittedBeforeFirstCommit(h: Hash, d: Doc)
    requires Revisions(d.triples) == []
    ensures !UncommittedDelta(h, d).hasCommit
    ensures UncommittedDelta(h, d).changed <==> ContentBytes(d) != []
  {
    hide Revisions, ContentTriples, TriplesContent, Hex;
    CountedIsWritten(d.triples);
    CommandNotEmpty(d.commands);
  }
}
