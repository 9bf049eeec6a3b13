/** The store object: inserting with eviction, exporting and importing, as the source runs them. */
module SiteVectorStore {
  import opened Bytes
  import opened NdaModel
  import opened NdaDocument
  import opened VectorStore
  import opened MemoryTransfer

  class SiteVectorStore {
    var nodes: seq<Node>
    var index: map<Word64, nat>

    function Model(): Store
      reads this
    {
      Store(nodes, index)
    }

    constructor ()
      ensures Model() == EMPTY_STORE && Consistent(Model())
    {
      nodes, index := [], map[];
    }

    /** `insert_rich`; `insert` is the same with no tags and outcome zero. */
    method InsertRich(p: Page) returns (id: Str)
      modifies this
      ensures Model() == Insert(old(Model()), p) && id == NodeId(p.session, |old(nodes)|)
      ensures old(Consistent(Model())) ==> Consistent(Model())
    {
      hide NodeId;
      if Consistent(Model()) { InsertConsistent(Model(), p); }
      id := NodeId(p.session, |nodes|);
      var idx := |nodes|;
      nodes := nodes + [Node(id, p.session, p.url, p.text, p.hash, p.tags, p.outcome)];
      index := index[p.hash := idx];
      if |nodes| > MAX_NODES {
        var excess := |nodes| - MAX_NODES;
        nodes := nodes[excess..];
        index := map[];
        for i := 0 to |nodes|
          invariant nodes == (old(nodes) + [NodeOf(p, |old(nodes)|)])[excess..]
          invariant index == Reindex(nodes[..i])
        {
          assert nodes[..i + 1][..i] == nodes[..i];
          index := index[nodes[i].hash := i];
        }
        assert nodes[..|nodes|] == nodes;
      }
    }

    /** `export_nda`. */
    method ExportNda() returns (doc: NdaDocument)
      requires 2 * |AllPushes(nodes)| <= U32
      ensures fresh(doc) && fresh(doc.dict) && doc.Model() == Export(nodes)
    {
      hide AllPushes, NodePushes, PushAll, Built;
      doc := new NdaDocument();
      EmptyBuilt();
      ghost var all := AllPushes(nodes);
      for i := 0 to |nodes|
        invariant fresh(doc) && fresh(doc.dict)
        invariant Built(doc.Model()) && |doc.dict.strings| + 2 * |AllPushes(nodes[i..])| <= U32
        invariant PushAll(doc.Model(), AllPushes(nodes[i..])) == Export(nodes)
      {
        NextNode(nodes, i);
        PushAllAppend(doc.Model(), NodePushes(nodes[i]), AllPushes(nodes[i + 1..]));
        ExportNode(doc, nodes[i]);
      }
      AllExported(doc.Model(), nodes);
    }

    /** `import_nda`: group per subject, then insert every complete page whose hash is new. */
    method ImportNda(doc: Document) returns (restored: nat)
      modifies this
      ensures (Model(), restored) == Import(old(Model()), doc)
      ensures old(Consistent(Model())) ==> Consistent(Model())
    {
      hide Group, Insert, Consistent;
      var g := GroupFacts(doc);
      restored := 0;
      ghost var start := Model();
      assert g.order[0..] == g.order;
      for i := 0 to |g.order|
        invariant var (s, n) := RestoreAll(Model(), g, g.order[i..]);
                  RestoreAll(start, g, g.order) == (s, restored + n)
        invariant old(Consistent(Model())) ==> Consistent(Model())
      {
        assert g.order[i..][1..] == g.order[i + 1..];
        var p := PartOf(g, g.order[i]);
        match (p.session, p.url, p.text, p.hash) {
          case (Some(session), Some(url), Some(text), Some(hash)) =>
            if hash !in index {
              var id := InsertRich(Page(session, url, text, hash, p.tags, p.outcome));
              restored := restored + 1;
            }
          case (_, _, _, _) =>
        }
      }
    }
  }

  method ExportNode(doc: NdaDocument, n: Node)
    requires Built(doc.Model()) && |doc.dict.strings| + 2 * |NodePushes(n)| <= U32
    modifies doc`facts, doc.dict
    ensures doc.Model() == PushAll(old(doc.Model()), NodePushes(n))
    ensures Built(doc.Model()) && |doc.dict.strings| <= |old(doc.dict.strings)| + 2 * |NodePushes(n)|
  {
    hide PushAll, Built, NodePushes, PushStr, PushInt;
    var ops := NodePushes(n);
    PushAllViews(doc.Model(), ops);
    ghost var start := doc.Model();
    assert ops[0..] == ops;
    for i := 0 to |ops|
      invariant Built(doc.Model()) && |doc.dict.strings| + 2 * |ops[i..]| <= U32
      invariant PushAll(doc.Model(), ops[i..]) == PushAll(start, ops)
    {
      ghost var before := doc.Model();
      assert Sound(before.dict) by { BuiltSound(before); }
      PushAllStep(before, ops[i..]);
      assert ops[i..][1..] == ops[i + 1..];
      PushOneViews(before, ops[i]);
      match ops[i] {
        case StrPush(s, p, t) => doc.PushStrFact(s, p, t);
        case IntPush(s, p, k) => doc.PushIntFact(s, p, k);
      }
    }
    PushAllDone(doc.Model());
  }

  lemma PushAllStep(d: Document, ops: seq<PushOp>)
    requires Built(d) && |d.dict.strings| + 2 * |ops| <= U32 && ops != []
    ensures Built(d) && Sound(d.dict) && |d.dict.strings| + 1 < U32
    ensures var r := PushOne(d, ops[0]);
            Built(r) && |r.dict.strings| + 2 * |ops[1..]| <= U32 && PushAll(d, ops) == PushAll(r, ops[1..])
  {
    PushOneViews(d, ops[0]);
  }

  lemma PushAllDone(d: Document)
    requires Built(d) && |d.dict.strings| <= U32
    ensures PushAll(d, []) == d
  {
  }

  lemma {:induction false} PushAllAppend(d: Document, a: seq<PushOp>, b: seq<PushOp>)
    requires Built(d) && |d.dict.strings| + 2 * (|a| + |b|) <= U32
    ensures var r := PushAll(d, a);
            Built(r) && |r.dict.strings| + 2 * |b| <= U32 && PushAll(d, a + b) == PushAll(r, b)
    decreases |a|
  {
    hide Built, PushOne;
    PushAllViews(d, a);
    if a == [] {
      assert a + b == b;
    } else {
      assert (a + b)[1..] == a[1..] + b;
      PushAllStep(d, a);
      PushAllStep(d, a + b);
      PushAllAppend(PushOne(d, a[0]), a[1..], b);
    }
  }

  lemma NextNode(nodes: seq<Node>, i: nat)
    requires i < |nodes|
    ensures AllPushes(nodes[i..]) == NodePushes(nodes[i]) + AllPushes(nodes[i + 1..])
  {
    hide NodePushes;
    assert nodes[i..][1..] == nodes[i + 1..];
  }

  lemma AllExported(d: Document, nodes: seq<Node>)
    requires Built(d) && |d.dict.strings| <= U32
    ensures |AllPushes(nodes[|nodes|..])| == 0 && PushAll(d, AllPushes(nodes[|nodes|..])) == d
  {
    assert nodes[|nodes|..] == [];
  }

  method GroupFacts(doc: Document) returns (g: Groups)
    ensures g == Group(NO_GROUPS, Views(doc.dict, doc.facts))
  {
    hide Absorb, Group;
    g := NO_GROUPS;
    GroupNothing(g);
    for i := 0 to |doc.facts|
      invariant g == Group(NO_GROUPS, Views(doc.dict, doc.facts[..i]))
    {
      var fact := doc.facts[i];
      assert doc.facts[..i + 1][..i] == doc.facts[..i];
      GroupAppend(NO_GROUPS, Views(doc.dict, doc.facts[..i]), ViewOf(doc.dict, fact));
      GroupSmall(g, ViewOf(doc.dict, fact));
      match Resolve(doc.dict, fact.subject) {
        case Some(subject) =>
          var order := if subject in g.parts then g.order else g.order + [subject];
          g := Groups(order, g.parts[subject := Absorb(PartOf(g, subject), fact.pred, SeenAs(doc.dict, fact.obj))]);
        case None =>
      }
    }
    assert doc.facts[..|doc.facts|] == doc.facts;
  }

  lemma GroupNothing(g: Groups)
    ensures Group(g, []) == g
  {
  }

  lemma GroupSmall(g: Groups, vs: seq<View>)
    ensures vs == [] ==> Group(g, vs) == g
    ensures |vs| == 1 ==> Group(g, vs) == AddView(g, vs[0])
  {
    hide AddView;
    if |vs| == 1 { assert vs[1..] == []; }
  }
}
