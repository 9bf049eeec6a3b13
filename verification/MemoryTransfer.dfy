/** Saving the site memory as a fact document and restoring it. */
module MemoryTransfer {
  import opened Arith
  import opened Bytes
  import opened NdaModel
  import opened VectorStore

  const MEMORY_SESSION: Word16 := 282
  const MEMORY_URL: Word16 := 283
  const MEMORY_TEXT: Word16 := 284
  const MEMORY_TRIPLE_HASH: Word16 := 285
  const MEMORY_TAG: Word16 := 286
  const MEMORY_OUTCOME: Word16 := 287

  // ----- what a reader of the document sees

  /** The object of a fact: a resolved (or unresolvable) string, or an integer. */
  datatype Seen = SeenStr(s: Option<Str>) | SeenInt(n: Int64)

  type View = (Str, Word16, Seen)

  function SeenAs(d: Dict, o: Object): Seen {
    match o
    case StrId(id) => SeenStr(Resolve(d, id))
    case Int(n) => SeenInt(n)
  }

  function ViewOf(d: Dict, f: Fact): seq<View> {
    match Resolve(d, f.subject)
    case Some(s) => [(s, f.pred, SeenAs(d, f.obj))]
    case None => []
  }

  function Views(d: Dict, facts: seq<Fact>): seq<View> {
    if facts == [] then [] else Views(d, facts[..|facts| - 1]) + ViewOf(d, facts[|facts| - 1])
  }

  lemma {:induction false} ViewsGrow(d: Dict, e: Dict, facts: seq<Fact>)
    requires d.strings <= e.strings && forall i :: 0 <= i < |facts| ==> TopId(facts[i]) < |d.strings|
    ensures Views(e, facts) == Views(d, facts)
  {
    if facts != [] {
      ViewsGrow(d, e, facts[..|facts| - 1]);
      assert TopId(facts[|facts| - 1]) < |d.strings|;
    }
  }

  // ----- exporting

  datatype PushOp =
    | StrPush(subject: Str, pred: Word16, text: Str)
    | IntPush(subject: Str, pred: Word16, n: Int64)

  function PushView(op: PushOp): View {
    match op
    case StrPush(s, p, t) => (s, p, SeenStr(Some(t)))
    case IntPush(s, p, n) => (s, p, SeenInt(n))
  }

  function PushViews(ops: seq<PushOp>): (vs: seq<View>)
    ensures |vs| == |ops|
  {
    seq(|ops|, i requires 0 <= i < |ops| => PushView(ops[i]))
  }

  /** A document under construction: the index inverts the strings and no id dangles. */
  ghost predicate Built(d: Document) {
    Inverts(d.dict) && NoDangling(d)
  }

  function PushOne(d: Document, op: PushOp): Document
    requires Sound(d.dict) && |d.dict.strings| + 1 < U32
  {
    match op
    case StrPush(s, p, t) => PushStr(d, s, p, t)
    case IntPush(s, p, n) => PushInt(d, s, p, n)
  }

  lemma PushOneViews(d: Document, op: PushOp)
    requires Built(d) && |d.dict.strings| + 1 < U32
    ensures var r := PushOne(d, op);
            && Built(r) && |r.dict.strings| <= |d.dict.strings| + 2
            && Views(r.dict, r.facts) == Views(d.dict, d.facts) + [PushView(op)]
            && r.facts[..|d.facts|] == d.facts && |r.facts| == |d.facts| + 1
  {
    hide Sound;
    var r := PushOne(d, op);
    var s := op.subject;
    InternResolves(d.dict, s);
    InternInverts(d.dict, s);
    if op.StrPush? {
      InternResolves(Intern(d.dict, s), op.text);
      InternInverts(Intern(d.dict, s), op.text);
    }
    assert r.facts[..|d.facts|] == d.facts;
    ViewsGrow(d.dict, r.dict, d.facts);
  }

  lemma BuiltSound(d: Document)
    requires Built(d)
    ensures Sound(d.dict)
  {
  }

  function PushAll(d: Document, ops: seq<PushOp>): Document
    requires Built(d) && |d.dict.strings| + 2 * |ops| <= U32
    decreases |ops|
  {
    if ops == [] then d
    else
      PushOneViews(d, ops[0]);
      PushAll(PushOne(d, ops[0]), ops[1..])
  }

  lemma {:induction false} PushAllViews(d: Document, ops: seq<PushOp>)
    requires Built(d) && |d.dict.strings| + 2 * |ops| <= U32
    ensures var r := PushAll(d, ops);
            && Built(r) && |r.facts| == |d.facts| + |ops| && |r.dict.strings| <= |d.dict.strings| + 2 * |ops|
            && Views(r.dict, r.facts) == Views(d.dict, d.facts) + PushViews(ops)
    decreases |ops|
  {
    hide NoDangling, Inverts, PushOne, Views, PushView;
    assert Sound(d.dict) by { BuiltSound(d); }
    if ops == [] {
      assert Views(d.dict, d.facts) + PushViews(ops) == Views(d.dict, d.facts);
    } else {
      PushOneViews(d, ops[0]);
      PushAllViews(PushOne(d, ops[0]), ops[1..]);
      assert PushViews(ops) == [PushView(ops[0])] + PushViews(ops[1..]);
    }
  }

  /** `(score * 10_000.0).round() as i64`, saturating like the cast. */
  function OutcomeInt(outcome: real): Int64 {
    var n := Round(outcome * 10000.0);
    if n < -0x8000_0000_0000_0000 then -0x8000_0000_0000_0000
    else if n >= 0x8000_0000_0000_0000 then 0x7FFF_FFFF_FFFF_FFFF
    else n
  }

  function TagPushes(id: Str, tags: seq<Str>): (ops: seq<PushOp>)
    ensures |ops| == |tags|
  {
    seq(|tags|, i requires 0 <= i < |tags| => StrPush(id, MEMORY_TAG, tags[i]))
  }

  function HeadPushes(n: Node): seq<PushOp> {
    [StrPush(n.id, MEMORY_SESSION, n.session), StrPush(n.id, MEMORY_URL, n.url), StrPush(n.id, MEMORY_TEXT, n.text),
     IntPush(n.id, MEMORY_TRIPLE_HASH, BitsI64(n.hash))]
  }

  function NodePushes(n: Node): seq<PushOp> {
    HeadPushes(n) + TagPushes(n.id, n.tags) + [IntPush(n.id, MEMORY_OUTCOME, OutcomeInt(n.outcome))]
  }

  function AllPushes(nodes: seq<Node>): seq<PushOp> {
    if nodes == [] then [] else NodePushes(nodes[0]) + AllPushes(nodes[1..])
  }

  const EMPTY_DOC := Document(EMPTY_DICT, [])

  /** `export_nda`. */
  function Export(nodes: seq<Node>): Document
    requires 2 * |AllPushes(nodes)| <= U32
  {
    PushAll(EMPTY_DOC, AllPushes(nodes))
  }

  // ----- importing

  datatype Partial = Partial(session: Option<Str>, url: Option<Str>, text: Option<Str>, hash: Option<Word64>,
                             tags: seq<Str>, outcome: real)

  const NO_PARTIAL := Partial(None, None, None, None, [], 0.0)

  function Absorb(p: Partial, pred: Word16, o: Seen): Partial {
    match o
    case SeenStr(s) =>
      if pred == MEMORY_SESSION then p.(session := s)
      else if pred == MEMORY_URL then p.(url := s)
      else if pred == MEMORY_TEXT then p.(text := s)
      else if pred == MEMORY_TAG && s.Some? then p.(tags := p.tags + [s.value])
      else p
    case SeenInt(n) =>
      if pred == MEMORY_TRIPLE_HASH then p.(hash := Some(I64Bits(n)))
      else if pred == MEMORY_OUTCOME then p.(outcome := n as real / 10000.0)
      else p
  }

  /** Subjects in first-seen order, and what has been collected for each. */
  datatype Groups = Groups(order: seq<Str>, parts: map<Str, Partial>)

  function PartOf(g: Groups, s: Str): Partial {
    if s in g.parts then g.parts[s] else NO_PARTIAL
  }

  function AddView(g: Groups, v: View): Groups {
    Groups(if v.0 in g.parts then g.order else g.order + [v.0], g.parts[v.0 := Absorb(PartOf(g, v.0), v.1, v.2)])
  }

  function Group(g: Groups, vs: seq<View>): Groups
    decreases |vs|
  {
    if vs == [] then g else Group(AddView(g, vs[0]), vs[1..])
  }

  /** Restoring one collected page: incomplete pages and known hashes are skipped. */
  function RestoreOne(s: Store, p: Partial): (Store, nat) {
    match (p.session, p.url, p.text, p.hash)
    case (Some(session), Some(url), Some(text), Some(hash)) =>
      if hash in s.index then (s, 0) else (Insert(s, Page(session, url, text, hash, p.tags, p.outcome)), 1)
    case (_, _, _, _) => (s, 0)
  }

  function RestoreAll(s: Store, g: Groups, order: seq<Str>): (Store, nat)
    decreases |order|
  {
    if order == [] then (s, 0)
    else
      var (s1, n) := RestoreOne(s, PartOf(g, order[0]));
      var (s2, m) := RestoreAll(s1, g, order[1..]);
      (s2, n + m)
  }

  const NO_GROUPS := Groups([], map[])

  /** `import_nda`: group the facts per subject, then restore page by page. */
  function Import(s: Store, d: Document): (Store, nat) {
    var g := Group(NO_GROUPS, Views(d.dict, d.facts));
    RestoreAll(s, g, g.order)
  }

  // ----- grouping what was exported

  function AbsorbAll(p: Partial, vs: seq<View>): Partial
    decreases |vs|
  {
    if vs == [] then p else AbsorbAll(Absorb(p, vs[0].1, vs[0].2), vs[1..])
  }

  lemma {:induction false} GroupAppend(g: Groups, a: seq<View>, b: seq<View>)
    ensures Group(g, a + b) == Group(Group(g, a), b)
    decreases |a|
  {
    hide AddView;
    if a == [] {
      assert a + b == b;
    } else {
      assert (a + b)[1..] == a[1..] + b;
      GroupAppend(AddView(g, a[0]), a[1..], b);
    }
  }

  lemma {:induction false} AbsorbAppend(p: Partial, a: seq<View>, b: seq<View>)
    ensures AbsorbAll(p, a + b) == AbsorbAll(AbsorbAll(p, a), b)
    decreases |a|
  {
    hide Absorb;
    if a == [] {
      assert a + b == b;
    } else {
      assert (a + b)[1..] == a[1..] + b;
      AbsorbAppend(Absorb(p, a[0].1, a[0].2), a[1..], b);
    }
  }

  /** Facts about one subject only touch that subject's entry. */
  lemma {:induction false} GroupSubject(g: Groups, id: Str, vs: seq<View>)
    requires id in g.parts && forall i :: 0 <= i < |vs| ==> vs[i].0 == id
    ensures Group(g, vs) == Groups(g.order, g.parts[id := AbsorbAll(g.parts[id], vs)])
    decreases |vs|
  {
    hide Absorb;
    if vs == [] {
      assert g.parts[id := g.parts[id]] == g.parts;
    } else {
      var g1 := AddView(g, vs[0]);
      GroupSubject(g1, id, vs[1..]);
      var q := AbsorbAll(g1.parts[id], vs[1..]);
      assert g1.parts[id := q] == g.parts[id := q];
    }
  }

  /** What import holds for a subject after one more exported node of that id: its fields win, its tags add up. */
  function Join(p: Partial, n: Node): Partial {
    Partial(Some(n.session), Some(n.url), Some(n.text), Some(n.hash), p.tags + n.tags,
            OutcomeInt(n.outcome) as real / 10000.0)
  }

  lemma {:induction false} AbsorbTags(p: Partial, id: Str, tags: seq<Str>)
    ensures AbsorbAll(p, PushViews(TagPushes(id, tags))) == p.(tags := p.tags + tags)
    decreases |tags|
  {
    var vs := PushViews(TagPushes(id, tags));
    if tags == [] {
      assert p.tags + tags == p.tags;
    } else {
      assert vs[1..] == PushViews(TagPushes(id, tags[1..]));
      AbsorbTags(p.(tags := p.tags + [tags[0]]), id, tags[1..]);
      assert p.tags + [tags[0]] + tags[1..] == p.tags + tags;
    }
  }

  lemma AbsorbHead(p: Partial, n: Node)
    ensures AbsorbAll(p, PushViews(HeadPushes(n)))
         == Partial(Some(n.session), Some(n.url), Some(n.text), Some(n.hash), p.tags, p.outcome)
  {
    var vs := PushViews(HeadPushes(n));
    var p1 := p.(session := Some(n.session));
    var p2 := p1.(url := Some(n.url));
    var p3 := p2.(text := Some(n.text));
    assert AbsorbAll(p, vs) == AbsorbAll(p1, vs[1..]);
    assert AbsorbAll(p1, vs[1..]) == AbsorbAll(p2, vs[1..][1..]);
    assert AbsorbAll(p2, vs[1..][1..]) == AbsorbAll(p3, vs[1..][1..][1..]);
  }

  lemma AbsorbNode(p: Partial, n: Node)
    ensures AbsorbAll(p, PushViews(NodePushes(n))) == Join(p, n)
  {
    hide AbsorbAll, TagPushes, PushViews;
    var head, tags := PushViews(HeadPushes(n)), PushViews(TagPushes(n.id, n.tags));
    var last := IntPush(n.id, MEMORY_OUTCOME, OutcomeInt(n.outcome));
    SplitViews(n);
    AbsorbAppend(p, head + tags, [PushView(last)]);
    AbsorbAppend(p, head, tags);
    AbsorbHead(p, n);
    var q := Partial(Some(n.session), Some(n.url), Some(n.text), Some(n.hash), p.tags, p.outcome);
    AbsorbTags(q, n.id, n.tags);
    AbsorbOne(q.(tags := p.tags + n.tags), PushView(last));
  }

  lemma SplitViews(n: Node)
    ensures PushViews(NodePushes(n))
         == PushViews(HeadPushes(n)) + PushViews(TagPushes(n.id, n.tags))
            + [PushView(IntPush(n.id, MEMORY_OUTCOME, OutcomeInt(n.outcome)))]
  {
    hide OutcomeInt, BitsI64;
  }

  lemma AbsorbOne(p: Partial, v: View)
    ensures AbsorbAll(p, [v]) == Absorb(p, v.1, v.2)
  {
    assert AbsorbAll(p, [v]) == AbsorbAll(Absorb(p, v.1, v.2), [v][1..]);
  }

  lemma NodeSubjects(n: Node)
    ensures var vs := PushViews(NodePushes(n)); |vs| >= 1 && forall i :: 0 <= i < |vs| ==> vs[i].0 == n.id
  {
    hide OutcomeInt, BitsI64;
  }

  /** The groups after one more exported node: a new group for a new id, a joined one for a known id. */
  function AddNode(g: Groups, n: Node): Groups {
    Groups(if n.id in g.parts then g.order else g.order + [n.id], g.parts[n.id := Join(PartOf(g, n.id), n)])
  }

  function Gather(g: Groups, nodes: seq<Node>): Groups
    decreases |nodes|
  {
    if nodes == [] then g else Gather(AddNode(g, nodes[0]), nodes[1..])
  }

  /** The facts of an exported node affect exactly the group of its id. */
  lemma GroupNode(g: Groups, n: Node)
    ensures Group(g, PushViews(NodePushes(n))) == AddNode(g, n)
  {
    hide NodePushes, Absorb, Join, PushViews;
    var vs, p := PushViews(NodePushes(n)), PartOf(g, n.id);
    NodeSubjects(n);
    AbsorbNode(p, n);
    if n.id in g.parts {
      GroupSubject(g, n.id, vs);
    } else {
      var g1 := AddView(g, vs[0]);
      GroupSubject(g1, n.id, vs[1..]);
      assert AbsorbAll(p, vs) == AbsorbAll(Absorb(p, vs[0].1, vs[0].2), vs[1..]);
      assert g1.parts[n.id := Join(p, n)] == g.parts[n.id := Join(p, n)];
    }
  }

  lemma PushViewsAppend(a: seq<PushOp>, b: seq<PushOp>)
    ensures PushViews(a + b) == PushViews(a) + PushViews(b)
  {
  }

  lemma NoViews(g: Groups)
    ensures PushViews([]) == [] && Group(g, []) == g
  {
  }

  /** Grouping the facts of any export is gathering its nodes by id. */
  lemma {:induction false} GroupAll(g: Groups, nodes: seq<Node>)
    ensures Group(g, PushViews(AllPushes(nodes))) == Gather(g, nodes)
    decreases |nodes|
  {
    hide NodePushes, AddNode, PushViews, Group;
    if nodes == [] {
      NoViews(g);
    } else {
      var n := nodes[0];
      PushViewsAppend(NodePushes(n), AllPushes(nodes[1..]));
      GroupAppend(g, PushViews(NodePushes(n)), PushViews(AllPushes(nodes[1..])));
      GroupNode(g, n);
      GroupAll(AddNode(g, n), nodes[1..]);
    }
  }

  lemma EmptyBuilt()
    ensures Built(EMPTY_DOC) && Views(EMPTY_DOC.dict, EMPTY_DOC.facts) == []
  {
  }

  /** Importing any export, into any store, restores the nodes gathered by id. */
  lemma ImportGathers(s: Store, nodes: seq<Node>)
    requires 2 * |AllPushes(nodes)| <= U32
    ensures var g := Gather(NO_GROUPS, nodes); Import(s, Export(nodes)) == RestoreAll(s, g, g.order)
  {
    hide AllPushes, Views, Group, RestoreAll, Gather;
    var ops := AllPushes(nodes);
    EmptyBuilt();
    PushAllViews(EMPTY_DOC, ops);
    assert [] + PushViews(ops) == PushViews(ops);
    GroupAll(NO_GROUPS, nodes);
  }

  // ----- every store is one that inserts reach

  lemma {:induction false} RestoreInserts(s: Store, g: Groups, order: seq<Str>) returns (ps: seq<Page>)
    ensures RestoreAll(s, g, order) == (InsertAll(s, ps), |ps|)
    decreases |order|
  {
    hide Insert;
    if order == [] {
      ps := [];
    } else {
      var (s1, n) := RestoreOne(s, PartOf(g, order[0]));
      ps := RestoreInserts(s1, g, order[1..]);
      if n == 1 {
        var p := PartOf(g, order[0]);
        var page := Page(p.session.value, p.url.value, p.text.value, p.hash.value, p.tags, p.outcome);
        ps := [page] + ps;
      }
    }
  }

  datatype StoreOp = InsertOp(page: Page) | ImportOp(doc: Document)

  function StoreStep(s: Store, op: StoreOp): Store {
    match op
    case InsertOp(p) => Insert(s, p)
    case ImportOp(d) => Import(s, d).0
  }

  function StoreRun(s: Store, ops: seq<StoreOp>): Store
    decreases |ops|
  {
    if ops == [] then s else StoreRun(StoreStep(s, ops[0]), ops[1..])
  }

  lemma {:induction false} InsertAllAppend(s: Store, ps: seq<Page>, qs: seq<Page>)
    ensures InsertAll(s, ps + qs) == InsertAll(InsertAll(s, ps), qs)
    decreases |ps|
  {
    hide Insert;
    if ps == [] {
      assert ps + qs == qs;
    } else {
      assert (ps + qs)[1..] == ps[1..] + qs;
      InsertAllAppend(Insert(s, ps[0]), ps[1..], qs);
    }
  }

  /** Any run of inserts and imports, of whatever documents, is a run of inserts. */
  lemma {:induction false} EveryRunInserts(s: Store, ops: seq<StoreOp>) returns (ps: seq<Page>)
    ensures StoreRun(s, ops) == InsertAll(s, ps)
    decreases |ops|
  {
    hide Insert, Group, Views, RestoreAll;
    if ops == [] {
      ps := [];
      NoInserts(s);
    } else {
      var first: seq<Page>;
      match ops[0] {
        case InsertOp(p) =>
          first := [p];
          OneInsert(s, p);
        case ImportOp(d) =>
          var g := Group(NO_GROUPS, Views(d.dict, d.facts));
          first := RestoreInserts(s, g, g.order);
      }
      var rest := EveryRunInserts(StoreStep(s, ops[0]), ops[1..]);
      InsertAllAppend(s, first, rest);
      ps := first + rest;
    }
  }

  lemma NoInserts(s: Store)
    ensures InsertAll(s, []) == s
  {
  }

  lemma OneInsert(s: Store, p: Page)
    ensures InsertAll(s, [p]) == Insert(s, p)
  {
    hide Insert;
    assert [p][1..] == [];
    NoInserts(Insert(s, p));
  }

  // ----- the facts of an export, and groups that lack a field

  /** What an export says of a page, with the predicate numbers of the source. */
  lemma ExportSays(n: Node)
    requires 2 * |AllPushes([n])| <= U32
    ensures var d := Export([n]); var vs := Views(d.dict, d.facts); var k := |n.tags|;
            && |vs| == k + 5
            && vs[0] == (n.id, 282, SeenStr(Some(n.session))) && vs[1] == (n.id, 283, SeenStr(Some(n.url)))
            && vs[2] == (n.id, 284, SeenStr(Some(n.text))) && vs[3] == (n.id, 285, SeenInt(BitsI64(n.hash)))
            && (forall i :: 0 <= i < k ==> vs[4 + i] == (n.id, 286, SeenStr(Some(n.tags[i]))))
            && vs[k + 4] == (n.id, 287, SeenInt(OutcomeInt(n.outcome)))
  {
    hide Views, OutcomeInt, BitsI64, PushAll, PushViews, NodePushes, AllPushes, Built;
    var ops := AllPushes([n]);
    OneNode(n);
    EmptyBuilt();
    PushAllViews(EMPTY_DOC, ops);
    assert [] + PushViews(ops) == PushViews(ops);
    NodeSays(n);
  }

  lemma NodeSays(n: Node)
    ensures var vs, k := PushViews(NodePushes(n)), |n.tags|;
            && |vs| == k + 5
            && vs[0] == (n.id, 282, SeenStr(Some(n.session))) && vs[1] == (n.id, 283, SeenStr(Some(n.url)))
            && vs[2] == (n.id, 284, SeenStr(Some(n.text))) && vs[3] == (n.id, 285, SeenInt(BitsI64(n.hash)))
            && (forall i :: 0 <= i < k ==> vs[4 + i] == (n.id, 286, SeenStr(Some(n.tags[i]))))
            && vs[k + 4] == (n.id, 287, SeenInt(OutcomeInt(n.outcome)))
  {
    hide OutcomeInt, BitsI64;
  }

  lemma OneNode(n: Node)
    ensures AllPushes([n]) == NodePushes(n)
  {
    hide NodePushes;
    assert AllPushes([n][1..]) == [];
  }

  /** The score times 10000, rounded, and held at the ends of the i64 range. */
  lemma OutcomeIs(outcome: real)
    ensures var n := Round(outcome * 10000.0);
            OutcomeInt(outcome) == if n < -9223372036854775808 then -9223372036854775808
                                   else if n > 9223372036854775807 then 9223372036854775807 else n
  {
    hide Round;
  }

  predicate Lacks(p: Partial, pred: nat) {
    && (pred == 282 ==> p.session == None)
    && (pred == 283 ==> p.url == None)
    && (pred == 284 ==> p.text == None)
    && (pred == 285 ==> p.hash == None)
  }

  lemma {:induction false} GroupLacks(g: Groups, vs: seq<View>, pred: nat)
    requires (forall s :: s in g.parts ==> Lacks(g.parts[s], pred)) && forall i :: 0 <= i < |vs| ==> vs[i].1 != pred
    ensures forall s :: s in Group(g, vs).parts ==> Lacks(Group(g, vs).parts[s], pred)
    decreases |vs|
  {
    if vs != [] {
      assert vs[0].1 != pred;
      assert Lacks(PartOf(g, vs[0].0), pred);
      GroupLacks(AddView(g, vs[0]), vs[1..], pred);
    }
  }

  lemma {:induction false} RestoreLacks(s: Store, g: Groups, order: seq<Str>, pred: nat)
    requires 282 <= pred <= 285 && forall s :: s in g.parts ==> Lacks(g.parts[s], pred)
    ensures RestoreAll(s, g, order) == (s, 0)
    decreases |order|
  {
    hide Insert;
    if order != [] {
      assert Lacks(PartOf(g, order[0]), pred);
      RestoreLacks(s, g, order[1..], pred);
    }
  }

  /** Pages need all four of session, url, text and hash: a document without one of them restores nothing. */
  lemma IncompleteRestoresNothing(s: Store, d: Document, pred: nat)
    requires 282 <= pred <= 285 && forall i :: 0 <= i < |Views(d.dict, d.facts)| ==> Views(d.dict, d.facts)[i].1 != pred
    ensures Import(s, d) == (s, 0)
  {
    hide Group, Views, RestoreAll;
    var vs := Views(d.dict, d.facts);
    GroupLacks(NO_GROUPS, vs, pred);
    RestoreLacks(s, Group(NO_GROUPS, vs), Group(NO_GROUPS, vs).order, pred);
  }
}
