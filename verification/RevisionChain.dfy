/** The revision history a portable document carries inside its own triples. */
module RevisionChain {
  import opened Bytes
  import opened Decimal
  import opened Merkle
  import opened PortableCodec

  const DOC := Ascii("nda:doc")
  const REV := Ascii("rev:")
  const GENESIS := Ascii("genesis")
  const NDA_TITLE := Ascii("nda:title")
  const NDA_CREATED := Ascii("nda:created")
  const NDA_ORIGIN := Ascii("nda:origin")
  const REV_PARENT := Ascii("rev:parent")
  const REV_CONTENT_HASH := Ascii("rev:content_hash")
  const REV_AUTHOR_NAME := Ascii("rev:author_name")
  const REV_AUTHOR_EMAIL := Ascii("rev:author_email")
  const REV_AUTHOR_SOURCE := Ascii("rev:author_source")
  const REV_TIMESTAMP := Ascii("rev:timestamp")
  const REV_MESSAGE := Ascii("rev:message")

  /** The predicates excluded from the content hash. */
  predicate IsProvenance(p: Str) {
    || p == NDA_ORIGIN || p == NDA_CREATED || p == REV_PARENT || p == REV_CONTENT_HASH || p == REV_AUTHOR_NAME
    || p == REV_AUTHOR_EMAIL || p == REV_AUTHOR_SOURCE || p == REV_TIMESTAMP || p == REV_MESSAGE
  }

  /** The seven predicates of a revision, in the order a commit writes them. */
  const FIELDS: seq<Str> :=
    [REV_PARENT, REV_CONTENT_HASH, REV_AUTHOR_NAME, REV_AUTHOR_EMAIL, REV_AUTHOR_SOURCE, REV_TIMESTAMP, REV_MESSAGE]

  lemma FieldsDistinct()
    ensures forall i, j :: 0 <= i < j < 7 ==> FIELDS[i] != FIELDS[j]
    ensures NDA_TITLE !in FIELDS && NDA_ORIGIN !in FIELDS && NDA_CREATED !in FIELDS
    ensures !IsProvenance(NDA_TITLE) && forall i :: 0 <= i < 7 ==> IsProvenance(FIELDS[i])
  {
    assert REV_CONTENT_HASH[4] != REV_AUTHOR_EMAIL[4];
    assert NDA_ORIGIN[0] != REV_PARENT[0] && NDA_CREATED[0] != REV_MESSAGE[0];
  }

  // ----- looking revisions up

  /** `subject.strip_prefix("rev:").and_then(parse::<u64>)`. */
  function RevIndex(subject: Str): Option<nat> {
    if REV <= subject then ParseU64(subject[4..]) else None
  }

  function RevSubject(n: nat): Str {
    REV + Dec(n)
  }

  lemma RevSubjectIndex(n: nat)
    requires n < U64
    ensures RevIndex(RevSubject(n)) == Some(n)
  {
    hide Dec, ParseU64;
    ParseDec(n);
    assert RevSubject(n)[4..] == Dec(n);
  }

  /** Several subjects name one revision: a plus sign parses too, though lookups use the plain form. */
  lemma OtherSubjectsParse(n: nat)
    requires n < U64
    ensures RevIndex(REV + [PLUS] + Dec(n)) == Some(n) && REV + [PLUS] + Dec(n) != RevSubject(n)
  {
    hide Dec;
    DecDigits(n);
    var s := REV + [PLUS] + Dec(n);
    assert s[4..] == [PLUS] + Dec(n) && s[4..][1..] == Dec(n);
    assert s[4] == PLUS && RevSubject(n)[4] == Dec(n)[0];
  }

  /** The object of the first triple with this subject and predicate. */
  function Find(ts: seq<Triple>, s: Str, p: Str): Option<Str> {
    if ts == [] then None
    else if ts[0].0 == s && ts[0].1 == p then Some(ts[0].2)
    else Find(ts[1..], s, p)
  }

  function Get(ts: seq<Triple>, s: Str, p: Str): Str {
    match Find(ts, s, p) case Some(o) => o case None => []
  }

  lemma {:induction false} FindAppend(a: seq<Triple>, b: seq<Triple>, s: Str, p: Str)
    ensures Find(a + b, s, p) == if Find(a, s, p).Some? then Find(a, s, p) else Find(b, s, p)
  {
    if a == [] {
      assert a + b == b;
    } else {
      assert (a + b)[1..] == a[1..] + b;
      FindAppend(a[1..], b, s, p);
    }
  }

  lemma {:induction false} FindNone(ts: seq<Triple>, s: Str, p: Str)
    requires forall i :: 0 <= i < |ts| ==> ts[i].0 != s || ts[i].1 != p
    ensures Find(ts, s, p) == None
  {
    if ts != [] {
      FindNone(ts[1..], s, p);
    }
  }

  lemma {:induction false} FindSome(ts: seq<Triple>, s: Str, p: Str) returns (i: nat)
    requires Find(ts, s, p).Some?
    ensures i < |ts| && ts[i] == (s, p, Find(ts, s, p).value)
  {
    if ts[0].0 == s && ts[0].1 == p {
      i := 0;
    } else {
      i := FindSome(ts[1..], s, p);
      i := i + 1;
    }
  }

  datatype Revision = Revision(id: Str, parent: Str, contentHash: Str, authorName: Str, authorEmail: Str,
                               authorSource: Str, timestamp: Str, message: Str)

  function FieldValue(r: Revision, i: nat): Str
    requires i < 7
  {
    if i == 0 then r.parent else if i == 1 then r.contentHash else if i == 2 then r.authorName
    else if i == 3 then r.authorEmail else if i == 4 then r.authorSource else if i == 5 then r.timestamp else r.message
  }

  function RevisionOf(ts: seq<Triple>, n: nat): Revision {
    var s := RevSubject(n);
    Revision(s, Get(ts, s, REV_PARENT), Get(ts, s, REV_CONTENT_HASH), Get(ts, s, REV_AUTHOR_NAME),
             Get(ts, s, REV_AUTHOR_EMAIL), Get(ts, s, REV_AUTHOR_SOURCE), Get(ts, s, REV_TIMESTAMP),
             Get(ts, s, REV_MESSAGE))
  }

  // ----- indices: collect, sort, dedup

  predicate Ascending(q: seq<nat>) {
    forall i, j :: 0 <= i < j < |q| ==> q[i] < q[j]
  }

  /** Insertion into an ascending list, dropping duplicates. */
  function Insert(q: seq<nat>, n: nat): (r: seq<nat>)
    requires Ascending(q)
    ensures Ascending(r) && forall k :: k in r <==> k == n || k in q
    decreases |q|
  {
    if q == [] then [n]
    else
      var last, init := q[|q| - 1], q[..|q| - 1];
      assert q == init + [last];
      if n > last then q + [n]
      else if n == last then q
      else
        var r := Insert(init, n);
        assert forall i :: 0 <= i < |r| ==> r[i] in r && (r[i] == n || r[i] in init);
        r + [last]
  }

  /** The revision indices of a document, sorted and without duplicates. */
  function Indices(ts: seq<Triple>): (q: seq<nat>)
    ensures Ascending(q)
    ensures forall k :: k in q <==> exists i :: 0 <= i < |ts| && RevIndex(ts[i].0) == Some(k)
  {
    if ts == [] then []
    else
      hide RevIndex;
      var rest, last := ts[..|ts| - 1], ts[|ts| - 1];
      assert ts == rest + [last];
      match RevIndex(last.0)
      case Some(n) => Insert(Indices(rest), n)
      case None => Indices(rest)
  }

  function Revisions(ts: seq<Triple>): (revs: seq<Revision>)
    ensures |revs| == |Indices(ts)|
  {
    seq(|Indices(ts)|, i requires 0 <= i < |Indices(ts)| => RevisionOf(ts, Indices(ts)[i]))
  }

  /** `latest_rev_index`: the largest index present. */
  function LatestIndex(ts: seq<Triple>): Option<nat> {
    var q := Indices(ts);
    if q == [] then None else Some(q[|q| - 1])
  }

  datatype BrokenLink = BrokenLink(id: Str, parent: Str, expected: Str)

  function Expected(prev: Option<Str>): Str {
    match prev case Some(hash) => hash case None => GENESIS
  }

  /** The loop of `verify_history` from a given predecessor hash. */
  function VerifyFrom(revs: seq<Revision>, prev: Option<Str>): Result<(), BrokenLink>
    decreases |revs|
  {
    if revs == [] then Ok(())
    else if revs[0].parent != Expected(prev) then Err(BrokenLink(revs[0].id, revs[0].parent, Expected(prev)))
    else VerifyFrom(revs[1..], Some(revs[0].contentHash))
  }

  function VerifyHistory(ts: seq<Triple>): Result<(), BrokenLink> {
    VerifyFrom(Revisions(ts), None)
  }

  // ----- content

  function TripleContent(t: Triple): seq<Byte> {
    if IsProvenance(t.1) then [] else LenPrefixed(t.0) + LenPrefixed(t.1) + LenPrefixed(t.2)
  }

  function TriplesContent(ts: seq<Triple>): seq<Byte> {
    if ts == [] then [] else TripleContent(ts[0]) + TriplesContent(ts[1..])
  }

  function CommandContent(c: Command): seq<Byte> {
    [c.kind] + LeBytes(c.color, 4) + LeBytes(c.x, 2) + LeBytes(c.y, 2) + LeBytes(c.w, 2) + LeBytes(c.h, 2)
    + LenPrefixed(c.content)
  }

  function CommandsContent(cs: seq<Command>): seq<Byte> {
    if cs == [] then [] else CommandContent(cs[0]) + CommandsContent(cs[1..])
  }

  function ContentBytes(d: Doc): seq<Byte> {
    TriplesContent(d.triples) + CommandsContent(d.commands)
  }

  function ContentHash(h: Hash, d: Doc): Digest {
    h(ContentBytes(d))
  }

  function HexDigit(n: nat): Byte
    requires n < 16
  {
    if n < 10 then 48 + n else 87 + n
  }

  /** Lowercase hex. */
  function Hex(b: seq<Byte>): (s: Str)
    ensures |s| == 2 * |b|
  {
    if b == [] then [] else [HexDigit(b[0] / 16), HexDigit(b[0] % 16)] + Hex(b[1..])
  }

  lemma {:induction false} HexInjective(a: seq<Byte>, b: seq<Byte>)
    requires Hex(a) == Hex(b)
    ensures a == b
  {
    assert |a| == |b|;
    if a != [] {
      assert Hex(a)[0] == Hex(b)[0] && Hex(a)[1] == Hex(b)[1];
      assert Hex(a)[2..] == Hex(a[1..]) && Hex(b)[2..] == Hex(b[1..]);
      HexInjective(a[1..], b[1..]);
      assert a == [a[0]] + a[1..] && b == [b[0]] + b[1..];
    }
  }

  // ----- the operations

  datatype Author = Author(name: Str, email: Str, source: Str)

  function PushTriple(d: Doc, t: Triple): Doc {
    d.(triples := d.triples + [t])
  }

  function PushCommand(d: Doc, c: Command): Doc {
    d.(commands := d.commands + [c])
  }

  function WithoutTitle(ts: seq<Triple>): seq<Triple> {
    if ts == [] then []
    else if ts[0].1 == NDA_TITLE then WithoutTitle(ts[1..])
    else [ts[0]] + WithoutTitle(ts[1..])
  }

  function SetTitle(d: Doc, title: Str): Doc {
    d.(triples := [(DOC, NDA_TITLE, title)] + WithoutTitle(d.triples))
  }

  function ParentHash(ts: seq<Triple>): Str {
    var revs := Revisions(ts);
    if revs == [] then GENESIS else revs[|revs| - 1].contentHash
  }

  /** The next index, with the wrap-around of a release build. */
  function NextIndex(ts: seq<Triple>): nat {
    match LatestIndex(ts) case Some(n) => (n + 1) % U64 case None => 0
  }

  function OriginTriples(ts: seq<Triple>, next: nat, timestamp: Str, workspace: Str): seq<Triple> {
    if next != 0 then []
    else [(DOC, NDA_ORIGIN, workspace)]
         + (if exists i :: 0 <= i < |ts| && ts[i].1 == NDA_CREATED then [] else [(DOC, NDA_CREATED, timestamp)])
  }

  function RevisionTriples(r: Revision): (ts: seq<Triple>)
    ensures |ts| == 7
  {
    seq(7, i requires 0 <= i < 7 => (r.id, FIELDS[i], FieldValue(r, i)))
  }

  function NewRevision(h: Hash, d: Doc, a: Author, timestamp: Str, message: Str): Revision {
    Revision(RevSubject(NextIndex(d.triples)), ParentHash(d.triples), Hex(ContentHash(h, d)),
             a.name, a.email, a.source, timestamp, message)
  }

  /** `commit_revision`. */
  function Commit(h: Hash, d: Doc, a: Author, timestamp: Str, message: Str, workspace: Str): Doc {
    d.(triples := d.triples + OriginTriples(d.triples, NextIndex(d.triples), timestamp, workspace)
                  + RevisionTriples(NewRevision(h, d, a, timestamp, message)))
  }

  datatype Delta = Delta(hasCommit: bool, changed: bool, contentTriples: nat, commands: nat)

  function ContentTriples(ts: seq<Triple>): nat {
    if ts == [] then 0 else (if IsProvenance(ts[0].1) then 0 else 1) + ContentTriples(ts[1..])
  }

  /** `uncommitted_delta`. */
  function UncommittedDelta(h: Hash, d: Doc): Delta {
    var n, c, revs := ContentTriples(d.triples), |d.commands|, Revisions(d.triples);
    if revs == [] then Delta(false, n > 0 || c > 0, n, c)
    else Delta(true, revs[|revs| - 1].contentHash != Hex(ContentHash(h, d)), n, c)
  }

  // ----- the values written out

  lemma HexDigitIs(n: nat)
    requires n < 16
    ensures HexDigit(n) == Ascii("0123456789abcdef")[n]
  {
  }

  /** Lowercase hex, high nibble first. */
  lemma {:induction false} HexIs(b: seq<Byte>, i: nat)
    requires i < |b|
    ensures Hex(b)[2 * i] == HexDigit(b[i] / 16) && Hex(b)[2 * i + 1] == HexDigit(b[i] % 16)
  {
    hide HexDigit;
    if i > 0 {
      HexIs(b[1..], i - 1);
      assert Hex(b)[2..] == Hex(b[1..]);
      assert b[1..][i - 1] == b[i];
      assert Hex(b)[2 * i] == Hex(b)[2..][2 * (i - 1)] && Hex(b)[2 * i + 1] == Hex(b)[2..][2 * (i - 1) + 1];
    }
  }

  /** The names a document carries, letter by letter. */
  lemma NamesSpelled()
    ensures DOC == Ascii("nda:doc") && REV == Ascii("rev:") && GENESIS == Ascii("genesis")
    ensures NDA_TITLE == Ascii("nda:title") && NDA_CREATED == Ascii("nda:created") && NDA_ORIGIN == Ascii("nda:origin")
    ensures REV_PARENT == Ascii("rev:parent") && REV_CONTENT_HASH == Ascii("rev:content_hash")
    ensures REV_AUTHOR_NAME == Ascii("rev:author_name") && REV_AUTHOR_EMAIL == Ascii("rev:author_email")
    ensures REV_AUTHOR_SOURCE == Ascii("rev:author_source") && REV_TIMESTAMP == Ascii("rev:timestamp")
    ensures REV_MESSAGE == Ascii("rev:message")
  {
  }

  /** The predicates left out of the content hash, and no others. */
  lemma ProvenanceIs(p: Str)
    ensures IsProvenance(p) <==>
            p in {NDA_ORIGIN, NDA_CREATED, REV_PARENT, REV_CONTENT_HASH, REV_AUTHOR_NAME, REV_AUTHOR_EMAIL,
                  REV_AUTHOR_SOURCE, REV_TIMESTAMP, REV_MESSAGE}
  {
    hide Ascii;
  }

  /** What a commit writes: on the first one the origin and, if there is none, the creation time, then seven triples. */
  lemma CommitWrites(h: Hash, d: Doc, a: Author, timestamp: Str, message: Str, workspace: Str)
    ensures var n, ts := NextIndex(d.triples), d.triples; var s := REV + Dec(n);
            Commit(h, d, a, timestamp, message, workspace).triples
            == ts
               + (if n == 0 then [(DOC, NDA_ORIGIN, workspace)] else [])
               + (if n == 0 && !(exists i :: 0 <= i < |ts| && ts[i].1 == NDA_CREATED)
                  then [(DOC, NDA_CREATED, timestamp)] else [])
               + [(s, REV_PARENT, ParentHash(ts)), (s, REV_CONTENT_HASH, Hex(ContentHash(h, d))),
                  (s, REV_AUTHOR_NAME, a.name), (s, REV_AUTHOR_EMAIL, a.email), (s, REV_AUTHOR_SOURCE, a.source),
                  (s, REV_TIMESTAMP, timestamp), (s, REV_MESSAGE, message)]
  {
    hide Ascii, NextIndex, Revisions, Hex, Dec, ContentHash, ParentHash, RevisionTriples;
    var n, ts := NextIndex(d.triples), d.triples;
    SevenTriples(NewRevision(h, d, a, timestamp, message));
  }

  lemma SevenTriples(r: Revision)
    ensures RevisionTriples(r)
         == [(r.id, REV_PARENT, r.parent), (r.id, REV_CONTENT_HASH, r.contentHash), (r.id, REV_AUTHOR_NAME, r.authorName),
             (r.id, REV_AUTHOR_EMAIL, r.authorEmail), (r.id, REV_AUTHOR_SOURCE, r.authorSource),
             (r.id, REV_TIMESTAMP, r.timestamp), (r.id, REV_MESSAGE, r.message)]
  {
    hide Ascii;
  }

  /** Dropping titles goes triple by triple, whatever stands before. */
  lemma {:induction false} WithoutTitleIs(ts: seq<Triple>, t: Triple)
    ensures WithoutTitle(ts + [t]) == WithoutTitle(ts) + (if t.1 == NDA_TITLE then [] else [t])
    ensures WithoutTitle([]) == []
  {
    hide Ascii;
    if ts == [] {
      assert ts + [t] == [t] && [t][1..] == [];
    } else {
      assert (ts + [t])[1..] == ts[1..] + [t];
      WithoutTitleIs(ts[1..], t);
    }
  }

  /** A title goes first, under the document subject. */
  lemma SetTitleWrites(d: Doc, title: Str)
    ensures SetTitle(d, title).commands == d.commands
    ensures |SetTitle(d, title).triples| == 1 + |WithoutTitle(d.triples)| && SetTitle(d, title).triples[0] == (DOC, NDA_TITLE, title)
  {
    hide Ascii;
  }

  /** A triple in the content bytes: each string behind its length in four bytes, least significant first. */
  lemma TripleExample()
    ensures TripleContent(([97], [98, 99], [])) == [1, 0, 0, 0, 97, 2, 0, 0, 0, 98, 99, 0, 0, 0, 0]
  {
    hide LeBytes, IsProvenance;
    NotProvenance();
    FourBytes();
  }

  /** A command in the content bytes. */
  lemma CommandExample()
    ensures CommandContent(Command(1, 0x0504_0302, 0x0706, 0x0908, 0x0B0A, 0x0D0C, [14]))
         == [1, 2, 3, 4, 5, 6, 7, 8, 9, 10, 11, 12, 13, 1, 0, 0, 0, 14]
  {
    hide LeBytes;
    FourBytes();
  }

  /** Content bytes are all triples, then all commands, each kind in order. */
  lemma {:induction false} ContentIs(ts: seq<Triple>, t: Triple, cs: seq<Command>, c: Command)
    ensures TriplesContent(ts + [t]) == TriplesContent(ts) + TripleContent(t) && TriplesContent([]) == []
    ensures CommandsContent(cs + [c]) == CommandsContent(cs) + CommandContent(c) && CommandsContent([]) == []
    decreases |ts| + |cs|
  {
    hide TripleContent, CommandContent;
    if ts == [] {
      assert ts + [t] == [t] && [t][1..] == [];
    } else {
      assert (ts + [t])[1..] == ts[1..] + [t];
      ContentIs(ts[1..], t, cs, c);
    }
    if cs == [] {
      assert cs + [c] == [c] && [c][1..] == [];
    } else {
      assert (cs + [c])[1..] == cs[1..] + [c];
      ContentIs(ts, t, cs[1..], c);
    }
  }

  lemma NotProvenance()
    ensures !IsProvenance([98, 99])
  {
  }

  lemma FourBytes()
    ensures LeBytes(0, 4) == [0, 0, 0, 0] && LeBytes(1, 4) == [1, 0, 0, 0] && LeBytes(2, 4) == [2, 0, 0, 0]
    ensures LeBytes(0x0504_0302, 4) == [2, 3, 4, 5]
    ensures LeBytes(0x0706, 2) == [6, 7] && LeBytes(0x0908, 2) == [8, 9]
    ensures LeBytes(0x0B0A, 2) == [10, 11] && LeBytes(0x0D0C, 2) == [12, 13]
  {
    hide LeBytes;
    LeFour(0, 0, 0, 0);
    LeFour(1, 0, 0, 0);
    LeFour(2, 0, 0, 0);
    LeFour(2, 3, 4, 5);
    LeTwo(6, 7);
    LeTwo(8, 9);
    LeTwo(10, 11);
    LeTwo(12, 13);
  }
}
