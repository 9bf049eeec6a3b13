/** What every run of edits and commits keeps about the revision history of a document. */
module RevisionHistory {
  import opened Bytes
  import opened Decimal
  import opened Merkle
  import opened PortableCodec
  import opened RevisionChain

  /** Revision `k` is written out in full, and is what a lookup finds. */
  ghost predicate Recorded(ts: seq<Triple>, k: nat, r: Revision) {
    && r.id == RevSubject(k)
    && forall i :: 0 <= i < 7 ==> Find(ts, RevSubject(k), FIELDS[i]) == Some(FieldValue(r, i))
  }

  /** The triples hold exactly the revisions `revs`, numbered from 0. */
  ghost predicate Holds(ts: seq<Triple>, revs: seq<Revision>) {
    && |revs| <= U64
    && (forall i :: 0 <= i < |ts| && RevIndex(ts[i].0).Some? ==> RevIndex(ts[i].0).value < |revs|)
    && (forall k :: 0 <= k < |revs| ==> Recorded(ts, k, revs[k]))
  }

  lemma {:induction false} AscendingRange(q: seq<nat>, n: nat)
    requires Ascending(q) && forall k: nat :: k in q <==> k < n
    ensures |q| == n && forall i :: 0 <= i < n ==> q[i] == i
  {
    if q == [] {
      assert n == 0 || n - 1 in q;
    } else {
      var init, last := q[..|q| - 1], q[|q| - 1];
      assert q == init + [last] && last in q;
      LastIsLargest(q, n);
      forall k: nat
        ensures k in init <==> k < n - 1
      {
        if k in init {
          var i :| 0 <= i < |init| && init[i] == k;
          assert q[i] < q[|q| - 1];
        }
        if k < n - 1 { assert k in q; }
      }
      AscendingRange(init, n - 1);
    }
  }

  lemma LastIsLargest(q: seq<nat>, n: nat)
    requires q != [] && Ascending(q) && forall k: nat :: k in q <==> k < n
    ensures q[|q| - 1] == n - 1
  {
    assert q[|q| - 1] in q;
    assert n - 1 in q;
    var i :| 0 <= i < |q| && q[i] == n - 1;
  }

  lemma RecordedIndex(ts: seq<Triple>, k: nat, r: Revision)
    requires Recorded(ts, k, r) && k < U64
    ensures k in Indices(ts) && RevisionOf(ts, k) == r
  {
    hide RevSubject, RevIndex, Indices, Find;
    assert Find(ts, RevSubject(k), FIELDS[0]) == Some(FieldValue(r, 0));
    var i := FindSome(ts, RevSubject(k), FIELDS[0]);
    RevSubjectIndex(k);
    assert FIELDS[1] == REV_CONTENT_HASH && FIELDS[2] == REV_AUTHOR_NAME && FIELDS[3] == REV_AUTHOR_EMAIL;
    assert FIELDS[4] == REV_AUTHOR_SOURCE && FIELDS[5] == REV_TIMESTAMP && FIELDS[6] == REV_MESSAGE;
  }

  /** What the triples hold is what `revisions` recovers. */
  lemma HoldsRevisions(ts: seq<Triple>, revs: seq<Revision>)
    requires Holds(ts, revs)
    ensures Revisions(ts) == revs && |Indices(ts)| == |revs|
    ensures forall k :: 0 <= k < |revs| ==> Indices(ts)[k] == k
  {
    hide RevIndex, RevisionOf, Recorded, Indices;
    forall k: nat
      ensures k in Indices(ts) <==> k < |revs|
      ensures k < |revs| ==> RevisionOf(ts, k) == revs[k]
    {
      if k < |revs| { RecordedIndex(ts, k, revs[k]); }
    }
    AscendingRange(Indices(ts), |revs|);
  }

  // ----- what each operation does to the held revisions

  lemma RecordedAppend(ts: seq<Triple>, us: seq<Triple>, k: nat, r: Revision)
    requires Recorded(ts, k, r)
    ensures Recorded(ts + us, k, r)
  {
    hide RevSubject, Find;
    forall i | 0 <= i < 7
      ensures Find(ts + us, RevSubject(k), FIELDS[i]) == Some(FieldValue(r, i))
    {
      FindAppend(ts, us, RevSubject(k), FIELDS[i]);
    }
  }

  /** Appended triples that claim no new revision leave the history as it was. */
  lemma HoldsAppend(ts: seq<Triple>, us: seq<Triple>, revs: seq<Revision>)
    requires Holds(ts, revs)
    requires forall i :: 0 <= i < |us| && RevIndex(us[i].0).Some? ==> RevIndex(us[i].0).value < |revs|
    ensures Holds(ts + us, revs)
  {
    hide RevIndex, Recorded;
    forall k | 0 <= k < |revs|
      ensures Recorded(ts + us, k, revs[k])
    {
      RecordedAppend(ts, us, k, revs[k]);
    }
  }

  lemma {:induction false} FindWithoutTitle(ts: seq<Triple>, s: Str, p: Str)
    requires p != NDA_TITLE
    ensures Find(WithoutTitle(ts), s, p) == Find(ts, s, p)
  {
    if ts != [] {
      FindWithoutTitle(ts[1..], s, p);
      if ts[0].1 != NDA_TITLE {
        assert WithoutTitle(ts)[1..] == WithoutTitle(ts[1..]);
      }
    }
  }

  lemma {:induction false} WithoutTitleKeeps(ts: seq<Triple>)
    ensures forall i :: 0 <= i < |WithoutTitle(ts)| ==> WithoutTitle(ts)[i] in ts
  {
    if ts != [] {
      WithoutTitleKeeps(ts[1..]);
    }
  }

  lemma DocIsNoRevision()
    ensures RevIndex(DOC) == None
  {
    assert DOC[0] != REV[0];
  }

  lemma HoldsSetTitle(d: Doc, title: Str, revs: seq<Revision>)
    requires Holds(d.triples, revs)
    ensures Holds(SetTitle(d, title).triples, revs)
  {
    hide RevIndex, RevSubject, WithoutTitle, Find, Ascii;
    var ts, first := d.triples, [(DOC, NDA_TITLE, title)];
    DocIsNoRevision();
    WithoutTitleKeeps(ts);
    FieldsDistinct();
    forall k | 0 <= k < |revs|
      ensures Recorded(SetTitle(d, title).triples, k, revs[k])
    {
      assert Recorded(ts, k, revs[k]);
      forall i | 0 <= i < 7
        ensures Find(first + WithoutTitle(ts), RevSubject(k), FIELDS[i]) == Some(FieldValue(revs[k], i))
      {
        FindAppend(first, WithoutTitle(ts), RevSubject(k), FIELDS[i]);
        FindNone(first, RevSubject(k), FIELDS[i]);
        FindWithoutTitle(ts, RevSubject(k), FIELDS[i]);
      }
    }
  }

  lemma OriginIsNoRevision(ts: seq<Triple>, next: nat, timestamp: Str, workspace: Str)
    ensures var us := OriginTriples(ts, next, timestamp, workspace);
            forall i :: 0 <= i < |us| ==> RevIndex(us[i].0) == None && IsProvenance(us[i].1)
  {
    hide RevIndex, Ascii;
    DocIsNoRevision();
  }

  lemma NextIsCount(ts: seq<Triple>, revs: seq<Revision>)
    requires Holds(ts, revs) && |revs| < U64
    ensures NextIndex(ts) == |revs|
  {
    hide Holds, Indices, Revisions;
    HoldsRevisions(ts, revs);
  }

  lemma {:induction false} FindField(r: Revision, from: nat, i: nat)
    requires from <= i < 7
    ensures Find(RevisionTriples(r)[from..], r.id, FIELDS[i]) == Some(FieldValue(r, i))
    decreases i - from
  {
    hide FieldValue;
    FieldsDistinct();
    var ts := RevisionTriples(r)[from..];
    assert ts[0] == (r.id, FIELDS[from], FieldValue(r, from));
    if from < i {
      assert ts[1..] == RevisionTriples(r)[from + 1..];
      FindField(r, from + 1, i);
    }
  }

  lemma NewlyRecorded(ts: seq<Triple>, r: Revision, k: nat)
    requires k < U64 && r.id == RevSubject(k)
    requires forall i :: 0 <= i < |ts| ==> RevIndex(ts[i].0) != Some(k)
    ensures Recorded(ts + RevisionTriples(r), k, r)
  {
    hide RevSubject, RevIndex, Find, RevisionTriples;
    RevSubjectIndex(k);
    forall i | 0 <= i < 7
      ensures Find(ts + RevisionTriples(r), RevSubject(k), FIELDS[i]) == Some(FieldValue(r, i))
    {
      FindNone(ts, RevSubject(k), FIELDS[i]);
      FindAppend(ts, RevisionTriples(r), RevSubject(k), FIELDS[i]);
      FindField(r, 0, i);
      assert RevisionTriples(r)[0..] == RevisionTriples(r);
    }
  }

  /** A commit adds exactly one revision after the ones already held. */
  lemma HoldsCommit(h: Hash, d: Doc, a: Author, timestamp: Str, message: Str, workspace: Str, revs: seq<Revision>)
    requires Holds(d.triples, revs) && |revs| < U64
    ensures Holds(Commit(h, d, a, timestamp, message, workspace).triples,
                  revs + [NewRevision(h, d, a, timestamp, message)])
  {
    hide RevIndex, RevSubject, OriginTriples, RevisionTriples, NextIndex, Hex, ParentHash, Recorded;
    var ts, n, r := d.triples, |revs|, NewRevision(h, d, a, timestamp, message);
    NextIsCount(ts, revs);
    var us := OriginTriples(ts, n, timestamp, workspace);
    OriginIsNoRevision(ts, n, timestamp, workspace);
    HoldsAppend(ts, us, revs);
    NewlyRecorded(ts + us, r, n);
    RevSubjectIndex(n);
    RevisionSubjects(r);
    forall k | 0 <= k < n
      ensures Recorded(ts + us + RevisionTriples(r), k, revs[k])
    {
      RecordedAppend(ts + us, RevisionTriples(r), k, revs[k]);
    }
  }

  lemma RevisionSubjects(r: Revision)
    ensures forall i :: 0 <= i < 7 ==> RevisionTriples(r)[i].0 == r.id && IsProvenance(RevisionTriples(r)[i].1)
  {
    FieldsDistinct();
  }

  // ----- the chain of hashes

  /** Revision `k` names its predecessor's content hash. */
  predicate Link(revs: seq<Revision>, prev: Option<Str>, k: nat)
    requires k < |revs|
  {
    revs[k].parent == Expected(if k == 0 then prev else Some(revs[k - 1].contentHash))
  }

  /** `verify_history` succeeds exactly when every revision names its predecessor's content hash. */
  lemma {:induction false} VerifyIff(revs: seq<Revision>, prev: Option<Str>)
    ensures VerifyFrom(revs, prev).Ok? <==> forall k :: 0 <= k < |revs| ==> Link(revs, prev, k)
    decreases |revs|
  {
    if revs != [] {
      var rest, next := revs[1..], Some(revs[0].contentHash);
      VerifyIff(rest, next);
      assert Link(revs, prev, 0) <==> revs[0].parent == Expected(prev);
      forall k | 0 <= k < |rest|
        ensures Link(rest, next, k) <==> Link(revs, prev, k + 1)
      {
      }
      if forall k :: 0 <= k < |rest| ==> Link(rest, next, k) {
        assert forall k :: 1 <= k < |revs| ==> (Link(rest, next, k - 1) <==> Link(revs, prev, k));
      }
    }
  }

  /** The error names the first revision that fails to, its parent, and the hash expected instead. */
  lemma {:induction false} VerifyReports(revs: seq<Revision>, prev: Option<Str>, k: nat)
    requires k < |revs| && !Link(revs, prev, k) && forall j :: 0 <= j < k ==> Link(revs, prev, j)
    ensures VerifyFrom(revs, prev)
         == Err(BrokenLink(revs[k].id, revs[k].parent, if k > 0 then revs[k - 1].contentHash else Expected(prev)))
    ensures Expected(None) == GENESIS
    decreases k
  {
    hide Ascii;
    if k > 0 {
      var rest, next := revs[1..], Some(revs[0].contentHash);
      assert Link(revs, prev, 0);
      forall j | 0 <= j < |rest| ensures Link(rest, next, j) <==> Link(revs, prev, j + 1) {
      }
      VerifyReports(rest, next, k - 1);
    }
  }

  predicate Hashed(r: Revision) {
    r.contentHash != []
  }

  ghost predicate Linked(revs: seq<Revision>) {
    && (forall k :: 0 <= k < |revs| ==> Link(revs, None, k))
    && (forall k :: 0 <= k < |revs| ==> Hashed(revs[k]))
  }

  /** The invariant of every run: complete, consecutively numbered, linked revisions. */
  ghost predicate GoodHistory(d: Doc) {
    Holds(d.triples, Revisions(d.triples)) && Linked(Revisions(d.triples))
  }

  lemma GoodVerifies(d: Doc)
    requires GoodHistory(d)
    ensures VerifyHistory(d.triples).Ok?
  {
    hide Revisions, Holds;
    VerifyIff(Revisions(d.triples), None);
  }

  lemma HexNotEmpty(h: Hash, d: Doc)
    ensures Hex(ContentHash(h, d)) != []
  {
  }

  // ----- commits leave the content alone

  lemma {:induction false} ContentAppend(a: seq<Triple>, b: seq<Triple>)
    ensures TriplesContent(a + b) == TriplesContent(a) + TriplesContent(b)
    ensures ContentTriples(a + b) == ContentTriples(a) + ContentTriples(b)
  {
    hide IsProvenance, TripleContent;
    if a == [] {
      assert a + b == b;
    } else {
      assert (a + b)[1..] == a[1..] + b;
      ContentAppend(a[1..], b);
    }
  }

  lemma {:induction false} ProvenanceHasNoContent(ts: seq<Triple>)
    requires forall i :: 0 <= i < |ts| ==> IsProvenance(ts[i].1)
    ensures TriplesContent(ts) == [] && ContentTriples(ts) == 0
  {
    hide IsProvenance;
    if ts != [] {
      ProvenanceHasNoContent(ts[1..]);
    }
  }

  lemma ProvenanceAppended(ts: seq<Triple>, us: seq<Triple>)
    requires forall i :: 0 <= i < |us| ==> IsProvenance(us[i].1)
    ensures TriplesContent(ts + us) == TriplesContent(ts) && ContentTriples(ts + us) == ContentTriples(ts)
  {
    hide IsProvenance, TriplesContent, ContentTriples;
    ProvenanceHasNoContent(us);
    ContentAppend(ts, us);
  }

  /** A commit writes provenance only, so the content and its hash are untouched. */
  lemma CommitKeepsContent(h: Hash, d: Doc, a: Author, timestamp: Str, message: Str, workspace: Str)
    ensures var d' := Commit(h, d, a, timestamp, message, workspace);
            && ContentBytes(d') == ContentBytes(d) && ContentHash(h, d') == ContentHash(h, d)
            && ContentTriples(d'.triples) == ContentTriples(d.triples) && d'.commands == d.commands
  {
    hide IsProvenance, OriginTriples, RevisionTriples, NextIndex, TriplesContent, ContentTriples, NewRevision, CommandsContent;
    var ts, n := d.triples, NextIndex(d.triples);
    var us, r := OriginTriples(ts, n, timestamp, workspace), NewRevision(h, d, a, timestamp, message);
    OriginIsNoRevision(ts, n, timestamp, workspace);
    RevisionSubjects(r);
    ProvenanceAppended(ts, us);
    ProvenanceAppended(ts + us, RevisionTriples(r));
  }

  /**
    A commit on a good history appends exactly one revision, carrying the arguments, the content hash and
    the link to its predecessor; earlier revisions are unchanged.
   */
  lemma CommitAppendsOne(h: Hash, d: Doc, a: Author, timestamp: Str, message: Str, workspace: Str)
    requires GoodHistory(d) && |Revisions(d.triples)| < U64
    ensures GoodHistory(Commit(h, d, a, timestamp, message, workspace))
    ensures var revs, n := Revisions(d.triples), |Revisions(d.triples)|;
            Revisions(Commit(h, d, a, timestamp, message, workspace).triples)
            == revs + [Revision(RevSubject(n), if n == 0 then GENESIS else revs[n - 1].contentHash,
                                Hex(ContentHash(h, d)), a.name, a.email, a.source, timestamp, message)]
  {
    hide Revisions, Holds, Commit, Hex, ContentHash, NextIndex, RevSubject, Linked;
    var revs, r := Revisions(d.triples), NewRevision(h, d, a, timestamp, message);
    NextIsCount(d.triples, revs);
    HoldsCommit(h, d, a, timestamp, message, workspace, revs);
    HoldsRevisions(Commit(h, d, a, timestamp, message, workspace).triples, revs + [r]);
    HexNotEmpty(h, d);
    LinkNew(revs, r);
  }

  /** Right after a commit nothing is left uncommitted. */
  lemma CommitLeavesNothing(h: Hash, d: Doc, a: Author, timestamp: Str, message: Str, workspace: Str)
    requires GoodHistory(d) && |Revisions(d.triples)| < U64
    ensures var d' := Commit(h, d, a, timestamp, message, workspace);
            UncommittedDelta(h, d') == Delta(true, false, ContentTriples(d.triples), |d.commands|)
  {
    hide Revisions, GoodHistory, Commit, Hex, ContentHash, RevSubject, ContentTriples;
    CommitAppendsOne(h, d, a, timestamp, message, workspace);
    CommitKeepsContent(h, d, a, timestamp, message, workspace);
  }

  lemma LinkNew(revs: seq<Revision>, r: Revision)
    requires Linked(revs) && r.contentHash != []
    requires r.parent == if revs == [] then GENESIS else revs[|revs| - 1].contentHash
    ensures Linked(revs + [r])
  {
    hide Ascii;
    var all := revs + [r];
    forall k | 0 <= k < |all|
      ensures Link(all, None, k) && Hashed(all[k])
    {
      if k < |revs| { assert Link(revs, None, k); }
    }
  }

  // ----- whole runs

  datatype Op =
    | Push(t: Triple)
    | Draw(c: Command)
    | Title(title: Str)
    | CommitAs(author: Author, timestamp: Str, message: Str, workspace: Str)

  function Step(h: Hash, d: Doc, op: Op): Doc {
    match op
    case Push(t) => PushTriple(d, t)
    case Draw(c) => PushCommand(d, c)
    case Title(title) => SetTitle(d, title)
    case CommitAs(a, timestamp, message, workspace) => Commit(h, d, a, timestamp, message, workspace)
  }

  function Run(h: Hash, d: Doc, ops: seq<Op>): Doc
    decreases |ops|
  {
    if ops == [] then d else Run(h, Step(h, d, ops[0]), ops[1..])
  }

  function Commits(ops: seq<Op>): nat {
    if ops == [] then 0 else IsCommit(ops[0]) + Commits(ops[1..])
  }

  /** A pushed subject may not claim a revision beyond the `n` already made. */
  predicate ClaimsNothing(op: Op, n: nat) {
    op.Push? && RevIndex(op.t.0).Some? ==> RevIndex(op.t.0).value < n
  }

  /** Every push of the run respects the revisions made so far. */
  predicate Honest(ops: seq<Op>, n: nat) {
    ops == [] || (ClaimsNothing(ops[0], n) && Honest(ops[1..], n + IsCommit(ops[0])))
  }

  /** Between two states of a run: a good history, extended by `n` revisions. */
  ghost predicate Extends(before: Doc, after: Doc, n: nat) {
    && GoodHistory(after)
    && Revisions(before.triples) <= Revisions(after.triples)
    && |Revisions(after.triples)| == |Revisions(before.triples)| + n
  }

  lemma ExtendsTrans(a: Doc, b: Doc, c: Doc, m: nat, n: nat)
    requires Extends(a, b, m) && Extends(b, c, n)
    ensures Extends(a, c, m + n)
  {
    hide Revisions, GoodHistory;
  }

  lemma ExtendsRefl(d: Doc)
    requires GoodHistory(d)
    ensures Extends(d, d, 0)
  {
    hide Revisions, GoodHistory;
  }

  function IsCommit(op: Op): nat {
    if op.CommitAs? then 1 else 0
  }

  lemma StepKeeps(h: Hash, d: Doc, op: Op)
    requires GoodHistory(d) && ClaimsNothing(op, |Revisions(d.triples)|)
    requires |Revisions(d.triples)| + IsCommit(op) <= U64
    ensures Extends(d, Step(h, d, op), IsCommit(op))
    ensures GoodHistory(Step(h, d, op))
    ensures |Revisions(Step(h, d, op).triples)| == |Revisions(d.triples)| + IsCommit(op)
  {
    hide Revisions, Holds, Commit, RevIndex, SetTitle, Linked, Hex;
    var revs := Revisions(d.triples);
    match op
    case Push(t) =>
      HoldsAppend(d.triples, [t], revs);
      HoldsRevisions(d.triples + [t], revs);
    case Draw(c) =>
    case Title(title) =>
      HoldsSetTitle(d, title, revs);
      HoldsRevisions(SetTitle(d, title).triples, revs);
    case CommitAs(a, timestamp, message, workspace) =>
      CommitAppendsOne(h, d, a, timestamp, message, workspace);
  }

  lemma RunUnfolds(h: Hash, d: Doc, ops: seq<Op>, n: nat)
    requires ops != []
    ensures Run(h, d, ops) == Run(h, Step(h, d, ops[0]), ops[1..])
    ensures Commits(ops) == IsCommit(ops[0]) + Commits(ops[1..])
    ensures Honest(ops, n) ==> ClaimsNothing(ops[0], n) && Honest(ops[1..], n + IsCommit(ops[0]))
  {
    hide Step, ClaimsNothing, IsCommit;
  }

  lemma RunStops(h: Hash, d: Doc)
    ensures Run(h, d, []) == d && Commits([]) == 0
  {
  }

  /** Every honest run extends the history by one revision per commit and keeps it good. */
  lemma {:induction false} RunKeeps(h: Hash, d: Doc, ops: seq<Op>)
    requires GoodHistory(d) && Honest(ops, |Revisions(d.triples)|)
    requires |Revisions(d.triples)| + Commits(ops) <= U64
    ensures Extends(d, Run(h, d, ops), Commits(ops))
    decreases |ops|
  {
    hide *;
    if ops == [] {
      RunStops(h, d);
      ExtendsRefl(d);
    } else {
      var next, rest, n := Step(h, d, ops[0]), ops[1..], |Revisions(d.triples)|;
      RunUnfolds(h, d, ops, n);
      StepKeeps(h, d, ops[0]);
      assert |Revisions(next.triples)| == n + IsCommit(ops[0]);
      RunKeeps(h, next, rest);
      ExtendsTrans(d, next, Run(h, next, rest), IsCommit(ops[0]), Commits(rest));
    }
  }

  const EMPTY := Doc([], [])

  /** From an empty document every honest run has one revision per commit and a history that verifies. */
  lemma EveryRunVerifies(h: Hash, ops: seq<Op>)
    requires Honest(ops, 0) && Commits(ops) <= U64
    ensures VerifyHistory(Run(h, EMPTY, ops).triples).Ok?
    ensures |Revisions(Run(h, EMPTY, ops).triples)| == Commits(ops)
  {
    hide Run, Honest, Commits, VerifyHistory;
    assert Revisions(EMPTY.triples) == [] && GoodHistory(EMPTY);
    RunKeeps(h, EMPTY, ops);
    GoodVerifies(Run(h, EMPTY, ops));
  }

  // ----- exactly which pushes keep the history verifying

  /** A pushed triple that forges a well-linked parent for revision `k`. */
  predicate Forges(t: Triple, k: nat, parent: Str) {
    t.0 == RevSubject(k) && t.1 == REV_PARENT && t.2 == parent
  }

  lemma InsertLarger(q: seq<nat>, n: nat)
    requires Ascending(q) && forall i :: 0 <= i < |q| ==> q[i] < n
    ensures Insert(q, n) == q + [n]
  {
  }

  /** The revisions after a push that names a revision not yet made. */
  lemma PushedRevisions(d: Doc, t: Triple, k: nat)
    requires GoodHistory(d) && RevIndex(t.0) == Some(k) && k >= |Revisions(d.triples)|
    ensures Revisions(d.triples + [t]) == Revisions(d.triples) + [RevisionOf(d.triples + [t], k)]
  {
    hide RevIndex, RevisionOf, Linked, Insert, RevSubject, Recorded;
    var ts, revs := d.triples, Revisions(d.triples);
    HoldsRevisions(ts, revs);
    InsertLarger(Indices(ts), k);
    assert (ts + [t])[..|ts|] == ts;
    assert Indices(ts + [t]) == Indices(ts) + [k];
    forall i | 0 <= i < |revs|
      ensures RevisionOf(ts + [t], i) == revs[i]
    {
      RecordedAppend(ts, [t], i, revs[i]);
      RecordedIndex(ts + [t], i, revs[i]);
    }
  }

  lemma PushedParent(d: Doc, t: Triple, k: nat)
    requires GoodHistory(d) && RevIndex(t.0) == Some(k) && k >= |Revisions(d.triples)| && k < U64
    ensures RevisionOf(d.triples + [t], k).parent
         == if t.0 == RevSubject(k) && t.1 == REV_PARENT then t.2 else []
  {
    hide Revisions, RevIndex, RevSubject, Linked, Recorded;
    var ts := d.triples;
    RevSubjectIndex(k);
    FindNone(ts, RevSubject(k), REV_PARENT);
    FindAppend(ts, [t], RevSubject(k), REV_PARENT);
    assert Find([t], RevSubject(k), REV_PARENT)
        == if t.0 == RevSubject(k) && t.1 == REV_PARENT then Some(t.2) else Find([t][1..], RevSubject(k), REV_PARENT);
  }

  lemma IndexBelowU64(s: Str)
    ensures RevIndex(s).Some? ==> RevIndex(s).value < U64
  {
  }

  lemma ParentNotEmpty(d: Doc)
    requires GoodHistory(d)
    ensures ParentHash(d.triples) != []
  {
    hide Revisions, Holds;
    var revs := Revisions(d.triples);
    if revs != [] { assert Hashed(revs[|revs| - 1]); }
  }

  /**
    Pushing a triple onto a good history keeps `verify_history` succeeding exactly when its subject names
    no revision, names one already made, or is a forged parent that happens to link.
   */
  lemma PushKeepsVerifyingIff(d: Doc, t: Triple)
    requires GoodHistory(d)
    ensures VerifyHistory(d.triples + [t]).Ok? <==>
            match RevIndex(t.0)
            case None => true
            case Some(k) => k < |Revisions(d.triples)| || Forges(t, k, ParentHash(d.triples))
  {
    hide Revisions, RevIndex, Holds, RevSubject, VerifyFrom, RevisionOf;
    var ts, revs := d.triples, Revisions(d.triples);
    VerifyIff(Revisions(ts + [t]), None);
    if RevIndex(t.0).Some? && RevIndex(t.0).value >= |revs| {
      var k := RevIndex(t.0).value;
      IndexBelowU64(t.0);
      PushedRevisions(d, t, k);
      PushedParent(d, t, k);
      ParentNotEmpty(d);
      LinksAppend(revs, RevisionOf(ts + [t], k));
    } else {
      HoldsAppend(ts, [t], revs);
      HoldsRevisions(ts + [t], revs);
    }
  }

  lemma LinksAppend(revs: seq<Revision>, r: Revision)
    requires Linked(revs)
    ensures (forall k :: 0 <= k < |revs + [r]| ==> Link(revs + [r], None, k))
            <==> r.parent == if revs == [] then GENESIS else revs[|revs| - 1].contentHash
  {
    hide Ascii;
    var all := revs + [r];
    forall k | 0 <= k < |revs|
      ensures Link(all, None, k)
    {
      assert Link(revs, None, k);
    }
    assert Link(all, None, |revs|) <==> r.parent == if revs == [] then GENESIS else revs[|revs| - 1].contentHash;
  }

  // ----- the other edits

  /** `title`: the object of the first title triple. */
  function TitleOf(ts: seq<Triple>): Option<Str> {
    if ts == [] then None else if ts[0].1 == NDA_TITLE then Some(ts[0].2) else TitleOf(ts[1..])
  }

  lemma {:induction false} WithoutTitleHasNone(ts: seq<Triple>)
    ensures TitleOf(WithoutTitle(ts)) == None && WithoutTitle(WithoutTitle(ts)) == WithoutTitle(ts)
  {
    hide Ascii;
    if ts != [] {
      WithoutTitleHasNone(ts[1..]);
      if ts[0].1 != NDA_TITLE { assert WithoutTitle(ts)[1..] == WithoutTitle(ts[1..]); }
    }
  }

  /** Setting the title is read back, keeps every other triple in order, and replaces any earlier title. */
  lemma SetTitleReplaces(d: Doc, title: Str, other: Str)
    ensures TitleOf(SetTitle(d, title).triples) == Some(title)
    ensures SetTitle(d, title).triples[1..] == WithoutTitle(d.triples)
    ensures TitleOf(SetTitle(d, title).triples[1..]) == None
    ensures SetTitle(SetTitle(d, other), title) == SetTitle(d, title)
  {
    hide Ascii, WithoutTitle;
    WithoutTitleHasNone(d.triples);
    var ts := SetTitle(d, other).triples;
    assert ts[1..] == WithoutTitle(d.triples);
    assert WithoutTitle(ts) == WithoutTitle(ts[1..]) by { TitleDropped(ts); }
  }

  lemma TitleDropped(ts: seq<Triple>)
    requires ts != [] && ts[0].1 == NDA_TITLE
    ensures WithoutTitle(ts) == WithoutTitle(ts[1..])
  {
  }

  /** The first commit also records where and when the document came from; later ones add seven triples only. */
  lemma FirstCommitRecordsOrigin(h: Hash, d: Doc, a: Author, timestamp: Str, message: Str, workspace: Str)
    requires GoodHistory(d) && |Revisions(d.triples)| < U64
    ensures var ts := Commit(h, d, a, timestamp, message, workspace).triples;
            && d.triples <= ts
            && (Revisions(d.triples) == [] ==>
                  (DOC, NDA_ORIGIN, workspace) in ts && exists i :: 0 <= i < |ts| && ts[i].1 == NDA_CREATED)
            && (Revisions(d.triples) != [] ==> |ts| == |d.triples| + 7)
  {
    hide Ascii, Revisions, Holds, Linked, RevisionTriples, NextIndex, Hex, RevSubject;
    NextIsCount(d.triples, Revisions(d.triples));
    var us := OriginTriples(d.triples, NextIndex(d.triples), timestamp, workspace);
    var ts, n := Commit(h, d, a, timestamp, message, workspace).triples, |d.triples|;
    if Revisions(d.triples) == [] {
      assert ts[n] == us[0];
      if i :| 0 <= i < n && d.triples[i].1 == NDA_CREATED {
        assert ts[i].1 == NDA_CREATED;
      } else {
        assert ts[n + 1] == us[1];
      }
    }
  }
}
