/** What `uncommitted_delta` says along a run of edits after a commit, whatever the edits. */
module ContentRuns {
  import opened Bytes
  import opened Decimal
  import opened Merkle
  import opened PortableCodec
  import opened RevisionChain
  import opened RevisionHistory
  import opened ContentBinding

  /** The arguments of a commit. */
  datatype Stamp = Stamp(author: Author, timestamp: Str, message: Str, workspace: Str)

  function CommitBy(h: Hash, d: Doc, c: Stamp): Doc {
    Commit(h, d, c.author, c.timestamp, c.message, c.workspace)
  }

  // ----- the largest revision index present

  /** There is an index left for the next revision. */
  predicate Room(d: Doc) {
    LatestIndex(d.triples) != Some(U64 - 1)
  }

  /** Some subject of the triples names revision `k`. */
  ghost predicate Names(ts: seq<Triple>, k: nat) {
    exists i :: 0 <= i < |ts| && RevIndex(ts[i].0) == Some(k)
  }

  lemma LatestIff(ts: seq<Triple>, k: nat)
    ensures LatestIndex(ts) == Some(k) <==> Names(ts, k) && forall j: nat :: Names(ts, j) ==> j <= k
    ensures LatestIndex(ts) == None ==> !Names(ts, k)
  {
    hide RevIndex;
    var q := Indices(ts);
    assert forall j: nat :: j in q <==> Names(ts, j);
    if q != [] { assert q[|q| - 1] in q; }
    if Names(ts, k) && forall j: nat :: Names(ts, j) ==> j <= k {
      var i :| 0 <= i < |q| && q[i] == k;
      assert Names(ts, q[|q| - 1]);
    }
  }

  lemma NamesAppend(a: seq<Triple>, b: seq<Triple>, k: nat)
    ensures Names(a + b, k) <==> Names(a, k) || Names(b, k)
  {
    hide RevIndex;
    if Names(a, k) {
      var i :| 0 <= i < |a| && RevIndex(a[i].0) == Some(k);
      assert (a + b)[i] == a[i];
    }
    if Names(b, k) {
      var i :| 0 <= i < |b| && RevIndex(b[i].0) == Some(k);
      assert (a + b)[|a| + i] == b[i];
    }
  }

  /** The next index is above all those present. */
  lemma NextIsFresh(d: Doc, k: nat)
    requires Room(d)
    ensures NextIndex(d.triples) < U64 && (Names(d.triples, k) ==> k < NextIndex(d.triples))
  {
    hide Names, Indices;
    match LatestIndex(d.triples) {
      case None => LatestIff(d.triples, k);
      case Some(n) =>
        LatestIff(d.triples, n);
        LatestBounded(d.triples, n);
    }
  }

  lemma LatestBounded(ts: seq<Triple>, n: nat)
    requires Names(ts, n)
    ensures n < U64
  {
    hide RevIndex;
    var i :| 0 <= i < |ts| && RevIndex(ts[i].0) == Some(n);
    IndexBelowU64(ts[i].0);
  }

  // ----- the hash a commit records, and that edits keep it

  function RecordedHash(ts: seq<Triple>, k: nat): Option<Str> {
    Find(ts, RevSubject(k), REV_CONTENT_HASH)
  }

  /** After a commit on any document: its index is the largest, and its hash is the one a lookup finds. */
  lemma CommitRecords(h: Hash, d: Doc, c: Stamp)
    requires Room(d)
    ensures var d1, n := CommitBy(h, d, c), NextIndex(d.triples);
            LatestIndex(d1.triples) == Some(n) && RecordedHash(d1.triples, n) == Some(Hex(ContentHash(h, d)))
  {
    hide RevIndex, RevSubject, Find, OriginTriples, RevisionTriples, NextIndex, Hex, ContentHash, ParentHash, Names,
         LatestIndex, Ascii;
    var ts, n, r := d.triples, NextIndex(d.triples), NewRevision(h, d, c.author, c.timestamp, c.message);
    var us := OriginTriples(ts, n, c.timestamp, c.workspace);
    NextIsFresh(d, 0);
    OriginIsNoRevision(ts, n, c.timestamp, c.workspace);
    forall i | 0 <= i < |ts + us| ensures RevIndex((ts + us)[i].0) != Some(n) {
      if i < |ts| { NotNamed(d, i); }
    }
    NewlyRecorded(ts + us, r, n);
    assert FIELDS[1] == REV_CONTENT_HASH && FieldValue(r, 1) == r.contentHash;
    CommitNames(d, us, r, n);
  }

  lemma NotNamed(d: Doc, i: nat)
    requires Room(d) && i < |d.triples|
    ensures RevIndex(d.triples[i].0) != Some(NextIndex(d.triples))
  {
    hide RevIndex, NextIndex;
    if RevIndex(d.triples[i].0).Some? {
      var k := RevIndex(d.triples[i].0).value;
      assert Names(d.triples, k);
      NextIsFresh(d, k);
    }
  }

  lemma CommitNames(d: Doc, us: seq<Triple>, r: Revision, n: nat)
    requires Room(d) && n == NextIndex(d.triples) && r.id == RevSubject(n)
    requires forall i :: 0 <= i < |us| ==> RevIndex(us[i].0) == None
    ensures LatestIndex(d.triples + us + RevisionTriples(r)) == Some(n)
  {
    hide RevIndex, RevSubject, NextIndex, RevisionTriples, LatestIndex;
    var vs := RevisionTriples(r);
    NextIsFresh(d, 0);
    RevSubjectIndex(n);
    RevisionSubjects(r);
    assert RevIndex(vs[0].0) == Some(n);
    forall k: nat | Names(d.triples + us + vs, k) ensures k <= n {
      NamesAppend(d.triples + us, vs, k);
      NamesAppend(d.triples, us, k);
      NextIsFresh(d, k);
    }
    NamesAppend(d.triples + us, vs, n);
    LatestIff(d.triples + us + vs, n);
  }

  /** Neither a push nor a drawing nor a title changes a recorded hash. */
  lemma EditKeepsHash(h: Hash, d: Doc, op: Op, k: nat)
    requires !op.CommitAs? && RecordedHash(d.triples, k).Some?
    ensures RecordedHash(Step(h, d, op).triples, k) == RecordedHash(d.triples, k)
  {
    hide Find, RevSubject, WithoutTitle, Ascii;
    FieldsDistinct();
    assert FIELDS[1] == REV_CONTENT_HASH;
    match op
    case Push(t) => FindAppend(d.triples, [t], RevSubject(k), REV_CONTENT_HASH);
    case Draw(c) =>
    case Title(title) =>
      var first := [(DOC, NDA_TITLE, title)];
      FindAppend(first, WithoutTitle(d.triples), RevSubject(k), REV_CONTENT_HASH);
      FindNone(first, RevSubject(k), REV_CONTENT_HASH);
      FindWithoutTitle(d.triples, RevSubject(k), REV_CONTENT_HASH);
  }

  lemma {:induction false} EditsKeepHash(h: Hash, d: Doc, ops: seq<Op>, k: nat)
    requires Commits(ops) == 0 && RecordedHash(d.triples, k).Some?
    ensures RecordedHash(Run(h, d, ops).triples, k) == RecordedHash(d.triples, k)
    decreases |ops|
  {
    hide RecordedHash, Step;
    if ops != [] {
      EditKeepsHash(h, d, ops[0], k);
      EditsKeepHash(h, Step(h, d, ops[0]), ops[1..], k);
    }
  }

  lemma RecordedIsNamed(ts: seq<Triple>, k: nat)
    requires RecordedHash(ts, k).Some? && k < U64
    ensures Names(ts, k)
  {
    hide RevIndex, RevSubject, Find;
    var i := FindSome(ts, RevSubject(k), REV_CONTENT_HASH);
    RevSubjectIndex(k);
  }

  // ----- what the delta compares

  /** The delta compares the content with the hash found for the largest index present. */
  lemma DeltaComparesLatest(h: Hash, d: Doc, k: nat)
    requires LatestIndex(d.triples) == Some(k)
    ensures !UncommittedDelta(h, d).changed <==> RecordedHash(d.triples, k) == Some(Hex(ContentHash(h, d)))
  {
    hide RevSubject, Find, Indices, Hex, ContentHash, ContentTriples, Ascii;
    var q := Indices(d.triples);
    assert Revisions(d.triples)[|q| - 1] == RevisionOf(d.triples, k);
    HexNotEmpty(h, d);
  }

  /**
    After a commit and any edits since: if the edits left no subject naming a later revision, "unchanged" is
    reported exactly when the content bytes are those committed, or collide with them; otherwise exactly when
    the hash found for the latest revision named is that of the content.
   */
  lemma RunUnchangedIff(h: Hash, d: Doc, c: Stamp, ops: seq<Op>)
    requires Room(d) && Commits(ops) == 0
    ensures var now, n := Run(h, CommitBy(h, d, c), ops), NextIndex(d.triples); var top := LatestIndex(now.triples);
            && top.Some? && top.value >= n
            && (top.value == n ==>
                 (!UncommittedDelta(h, now).changed
                  <==> ContentBytes(d) == ContentBytes(now) || Collision(h, (ContentBytes(d), ContentBytes(now)))))
            && (top.value > n ==>
                 (!UncommittedDelta(h, now).changed
                  <==> RecordedHash(now.triples, top.value) == Some(Hex(ContentHash(h, now)))))
  {
    hide CommitBy, Run, UncommittedDelta, ContentBytes, RecordedHash, LatestIndex, NextIndex, Names, Hex;
    var d1, n := CommitBy(h, d, c), NextIndex(d.triples);
    var now := Run(h, d1, ops);
    CommitRecords(h, d, c);
    EditsKeepHash(h, d1, ops, n);
    NextIsFresh(d, n);
    RecordedIsNamed(now.triples, n);
    LatestIff(now.triples, n);
    var k := LatestIndex(now.triples).value;
    LatestIff(now.triples, k);
    DeltaComparesLatest(h, now, k);
    if Hex(ContentHash(h, d)) == Hex(ContentHash(h, now)) { HexInjective(ContentHash(h, d), ContentHash(h, now)); }
  }

  /** Edits that claim no revision beyond those made are of the first kind. */
  ghost predicate EditsAfterCommit(d: Doc, ops: seq<Op>) {
    && GoodHistory(d) && |Revisions(d.triples)| < U64
    && Commits(ops) == 0 && Honest(ops, |Revisions(d.triples)| + 1)
  }

  lemma HonestEditsClaimNothing(h: Hash, d: Doc, c: Stamp, ops: seq<Op>)
    requires EditsAfterCommit(d, ops)
    ensures Room(d) && LatestIndex(Run(h, CommitBy(h, d, c), ops).triples) == Some(NextIndex(d.triples))
  {
    hide Revisions, GoodHistory, Honest, Commits, Run, CommitBy, LatestIndex, NextIndex, Room, Extends;
    var d1 := CommitBy(h, d, c);
    GoodNext(d);
    CommitExtends(h, d, c);
    RunKeeps(h, d1, ops);
    ExtendsNothing(d1, Run(h, d1, ops));
    GoodLatest(Run(h, d1, ops));
  }

  lemma NextAfter(d: Doc, n: nat)
    requires n < U64 && LatestIndex(d.triples) == if n == 0 then None else Some(n - 1)
    ensures Room(d) && NextIndex(d.triples) == n
  {
    hide LatestIndex;
  }

  lemma GoodNext(d: Doc)
    requires GoodHistory(d) && |Revisions(d.triples)| < U64
    ensures Room(d) && NextIndex(d.triples) == |Revisions(d.triples)|
  {
    hide *;
    GoodLatest(d);
    NextAfter(d, |Revisions(d.triples)|);
  }

  lemma ExtendsNothing(before: Doc, after: Doc)
    requires Extends(before, after, 0)
    ensures GoodHistory(after) && |Revisions(after.triples)| == |Revisions(before.triples)|
  {
    hide Revisions, GoodHistory;
  }

  lemma CommitExtends(h: Hash, d: Doc, c: Stamp)
    requires GoodHistory(d) && |Revisions(d.triples)| < U64
    ensures var d1 := CommitBy(h, d, c); GoodHistory(d1) && |Revisions(d1.triples)| == |Revisions(d.triples)| + 1
  {
    hide Revisions, GoodHistory, Commit, Hex, ContentHash, RevSubject;
    CommitAppendsOne(h, d, c.author, c.timestamp, c.message, c.workspace);
  }

  lemma GoodLatest(d: Doc)
    requires GoodHistory(d)
    ensures var n := |Revisions(d.triples)|; LatestIndex(d.triples) == if n == 0 then None else Some(n - 1)
  {
    hide Revisions, Holds, Linked, Indices;
    HoldsRevisions(d.triples, Revisions(d.triples));
  }

  /**
    A check that is always reliable: while no later revision is named, the delta reports no change and the
    count of content triples it reported right after the commit exactly when the content is the committed
    one, or the hash collides.
   */
  lemma CountedUnchangedIff(h: Hash, d: Doc, c: Stamp, ops: seq<Op>)
    requires Room(d) && Commits(ops) == 0 && ShortDoc(d) && ShortDoc(Run(h, CommitBy(h, d, c), ops))
    ensures var d1 := CommitBy(h, d, c); var now := Run(h, d1, ops);
            var then_, delta := UncommittedDelta(h, d1), UncommittedDelta(h, now);
            LatestIndex(now.triples) == LatestIndex(d1.triples) ==>
              (!delta.changed && delta.contentTriples == then_.contentTriples
               <==> SameContent(d, now)
                    || (Collision(h, (ContentBytes(d), ContentBytes(now)))
                        && delta.contentTriples == then_.contentTriples))
  {
    hide Run, ContentBytes, SameContent, ShortDoc, Commit, ContentTriples, Hex, ContentHash, Revisions, Commits,
         LatestIndex, NextIndex, Room, RecordedHash;
    var now := Run(h, CommitBy(h, d, c), ops);
    RunUnchangedIff(h, d, c, ops);
    CommitRecords(h, d, c);
    CommitKeepsContent(h, d, c.author, c.timestamp, c.message, c.workspace);
    if ContentBytes(d) == ContentBytes(now) { ContentBytesBindIff(d, now); }
    if SameContent(d, now) { SameContentBytes(d, now); }
  }

  // ----- without a new title nothing is missed

  /** An edit that leaves the content alone: a triple with a provenance predicate. */
  predicate Quiet(op: Op) {
    op.Push? && IsProvenance(op.t.1)
  }

  predicate Appends(op: Op) {
    op.Push? || op.Draw?
  }

  ghost predicate AllQuiet(ops: seq<Op>) {
    forall i :: 0 <= i < |ops| ==> Quiet(ops[i])
  }

  ghost predicate AllAppend(ops: seq<Op>) {
    forall i :: 0 <= i < |ops| ==> Appends(ops[i])
  }

  lemma {:induction false} CommandsAppend(a: seq<Command>, b: seq<Command>)
    ensures CommandsContent(a + b) == CommandsContent(a) + CommandsContent(b)
  {
    hide CommandContent;
    if a == [] {
      assert a + b == b;
    } else {
      assert (a + b)[1..] == a[1..] + b;
      CommandsAppend(a[1..], b);
    }
  }

  lemma OneTriple(t: Triple)
    ensures TriplesContent([t]) == TripleContent(t)
  {
    hide TripleContent;
    assert TriplesContent([t][1..]) == [];
  }

  lemma OneCommand(c: Command)
    ensures CommandsContent([c]) == CommandContent(c)
  {
    hide CommandContent;
    assert CommandsContent([c][1..]) == [];
  }

  /** Pushing and drawing only ever lengthen the content, and a quiet push leaves it. */
  lemma StepLengthens(h: Hash, d: Doc, op: Op)
    requires Appends(op)
    ensures Quiet(op) ==> ContentBytes(Step(h, d, op)) == ContentBytes(d)
    ensures !Quiet(op) ==> |ContentBytes(Step(h, d, op))| > |ContentBytes(d)|
  {
    hide TriplesContent, CommandsContent, IsProvenance, LeBytes;
    match op
    case Push(t) =>
      ContentAppend(d.triples, [t]);
      OneTriple(t);
    case Draw(c) =>
      CommandsAppend(d.commands, [c]);
      OneCommand(c);
  }

  lemma {:induction false} RunLengthens(h: Hash, d: Doc, ops: seq<Op>)
    requires AllAppend(ops)
    ensures |ContentBytes(Run(h, d, ops))| >= |ContentBytes(d)|
    ensures ContentBytes(Run(h, d, ops)) == ContentBytes(d) <==> AllQuiet(ops)
    decreases |ops|
  {
    hide ContentBytes, Quiet, Step, Appends;
    if ops != [] {
      assert Appends(ops[0]) && AllAppend(ops[1..]);
      StepLengthens(h, d, ops[0]);
      RunLengthens(h, Step(h, d, ops[0]), ops[1..]);
      QuietCons(ops);
    }
  }

  lemma QuietCons(ops: seq<Op>)
    requires ops != []
    ensures AllQuiet(ops) <==> Quiet(ops[0]) && AllQuiet(ops[1..])
  {
    hide Quiet;
    forall i | 1 <= i < |ops| ensures ops[i] == ops[1..][i - 1] {
    }
  }

  /** The triples pushed by a run, in order. */
  function Pushed(ops: seq<Op>): seq<Triple> {
    if ops == [] then [] else (if ops[0].Push? then [ops[0].t] else []) + Pushed(ops[1..])
  }

  lemma {:induction false} RunPushes(h: Hash, d: Doc, ops: seq<Op>)
    requires AllAppend(ops)
    ensures Run(h, d, ops).triples == d.triples + Pushed(ops) && Commits(ops) == 0
    decreases |ops|
  {
    hide Appends, Step, IsCommit, AllAppend;
    if ops == [] {
      assert d.triples + [] == d.triples;
    } else {
      var next, rest := Step(h, d, ops[0]), ops[1..];
      AppendCons(ops);
      StepPushes(h, d, ops[0]);
      RunPushes(h, next, rest);
      var first := if ops[0].Push? then [ops[0].t] else [];
      assert (d.triples + first) + Pushed(rest) == d.triples + (first + Pushed(rest));
    }
  }

  lemma AppendCons(ops: seq<Op>)
    requires ops != [] && AllAppend(ops)
    ensures Appends(ops[0]) && AllAppend(ops[1..])
  {
    hide Appends;
  }

  lemma StepPushes(h: Hash, d: Doc, op: Op)
    requires Appends(op)
    ensures Step(h, d, op).triples == d.triples + (if op.Push? then [op.t] else []) && IsCommit(op) == 0
  {
    hide Commit, SetTitle;
  }

  /** The latest index after pushes on top of a document whose latest is `n`. */
  lemma LatestAppend(ts: seq<Triple>, us: seq<Triple>, n: nat)
    requires LatestIndex(ts) == Some(n)
    ensures LatestIndex(ts + us)
         == match LatestIndex(us) case Some(k) => Some(if k > n then k else n) case None => Some(n)
  {
    hide LatestIndex, Names;
    var m := match LatestIndex(us) case Some(k) => (if k > n then k else n) case None => n;
    LatestIff(ts, n);
    if LatestIndex(us).Some? { LatestIff(us, LatestIndex(us).value); }
    forall j: nat | Names(ts + us, j) ensures j <= m {
      NamesAppend(ts, us, j);
      LatestIff(us, j);
    }
    NamesAppend(ts, us, m);
    LatestIff(ts + us, m);
  }

  lemma FoundAmongPushed(ts: seq<Triple>, us: seq<Triple>, n: nat, k: nat)
    requires LatestIndex(ts) == Some(n) && n < k < U64
    ensures RecordedHash(ts + us, k) == RecordedHash(us, k)
  {
    hide RevSubject, Find, LatestIndex, RevIndex;
    FindAppend(ts, us, RevSubject(k), REV_CONTENT_HASH);
    LatestIff(ts, n);
    if Find(ts, RevSubject(k), REV_CONTENT_HASH).Some? {
      RecordedIsNamed(ts, k);
      assert false;
    }
  }

  /**
    After a commit and any pushes and drawings since. If no pushed subject names a later revision, "unchanged"
    is reported exactly when only provenance was pushed and nothing drawn, or the hash collides. Otherwise it
    is reported exactly when the first content hash pushed for the latest revision named is that of the content.
   */
  lemma UntitledUnchangedIff(h: Hash, d: Doc, c: Stamp, ops: seq<Op>)
    requires Room(d) && AllAppend(ops)
    ensures var now, n := Run(h, CommitBy(h, d, c), ops), NextIndex(d.triples);
            match LatestIndex(Pushed(ops))
            case Some(k) =>
              if k > n then
                !UncommittedDelta(h, now).changed <==> RecordedHash(Pushed(ops), k) == Some(Hex(ContentHash(h, now)))
              else
                !UncommittedDelta(h, now).changed <==> AllQuiet(ops) || Collision(h, (ContentBytes(d), ContentBytes(now)))
            case None =>
              !UncommittedDelta(h, now).changed <==> AllQuiet(ops) || Collision(h, (ContentBytes(d), ContentBytes(now)))
  {
    hide Room, Run, UncommittedDelta, ContentBytes, ContentHash, ContentTriples, AllAppend, AllQuiet, Commit, Hex,
         LatestIndex, NextIndex, RecordedHash, Pushed, Commits;
    var d1, n := CommitBy(h, d, c), NextIndex(d.triples);
    RunPushes(h, d1, ops);
    RunUnchangedIff(h, d, c, ops);
    CommitRecords(h, d, c);
    CommitKeepsContent(h, d, c.author, c.timestamp, c.message, c.workspace);
    RunLengthens(h, d1, ops);
    LatestAppend(d1.triples, Pushed(ops), n);
    if LatestIndex(Pushed(ops)).Some? && LatestIndex(Pushed(ops)).value > n {
      var k := LatestIndex(Pushed(ops)).value;
      assert k < U64 by { LatestIff(Pushed(ops), k); LatestBounded(Pushed(ops), k); }
      FoundAmongPushed(d1.triples, Pushed(ops), n, k);
    }
  }

  /**
    One push right after a commit, naming a revision not yet made, provenance though it may be, makes the
    delta report a change, unless it is that revision's own content-hash triple with the current hash.
   */
  lemma PushUnchangedIff(h: Hash, d: Doc, c: Stamp, t: Triple, k: nat)
    requires Room(d) && RevIndex(t.0) == Some(k) && k > NextIndex(d.triples)
    ensures !UncommittedDelta(h, PushTriple(CommitBy(h, d, c), t)).changed
            <==> t == (RevSubject(k), REV_CONTENT_HASH, Hex(ContentHash(h, d)))
  {
    hide Room, UncommittedDelta, ContentHash, ContentBytes, Commit, Hex, LatestIndex, NextIndex, RevIndex, RevSubject,
         IsProvenance, ContentTriples;
    var ops, d1 := [Push(t)], CommitBy(h, d, c);
    var now := PushTriple(d1, t);
    OnePush(h, d1, t);
    UntitledUnchangedIff(h, d, c, ops);
    OneLatest(t, k);
    OneRecorded(t, k);
    if t.1 == REV_CONTENT_HASH {
      assert IsProvenance(t.1) by { FieldsDistinct(); assert FIELDS[1] == REV_CONTENT_HASH; }
      assert ContentHash(h, now) == ContentHash(h, d) by { QuietPush(h, d1, t); SameHash(h, d, c); }
    }
  }

  lemma SameHash(h: Hash, d: Doc, c: Stamp)
    ensures ContentHash(h, CommitBy(h, d, c)) == ContentHash(h, d)
  {
    CommitKeepsContent(h, d, c.author, c.timestamp, c.message, c.workspace);
  }

  lemma QuietPush(h: Hash, d: Doc, t: Triple)
    requires IsProvenance(t.1)
    ensures ContentHash(h, PushTriple(d, t)) == ContentHash(h, d)
  {
    StepLengthens(h, d, Push(t));
  }

  lemma OnePush(h: Hash, d: Doc, t: Triple)
    ensures Run(h, d, [Push(t)]) == PushTriple(d, t) && Pushed([Push(t)]) == [t] && AllAppend([Push(t)])
  {
    assert [Push(t)][1..] == [];
    assert Run(h, PushTriple(d, t), []) == PushTriple(d, t);
  }

  lemma OneLatest(t: Triple, k: nat)
    requires RevIndex(t.0) == Some(k)
    ensures LatestIndex([t]) == Some(k)
  {
    hide RevIndex, LatestIndex;
    assert [t][0] == t;
    LatestIff([t], k);
  }

  lemma OneRecorded(t: Triple, k: nat)
    ensures RecordedHash([t], k) == if t.0 == RevSubject(k) && t.1 == REV_CONTENT_HASH then Some(t.2) else None
  {
    hide RevSubject, Ascii;
    assert Find([t][1..], RevSubject(k), REV_CONTENT_HASH) == None;
  }
}
