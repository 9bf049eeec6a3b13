/** What comes back when an exported site memory is imported: exactly how much, and exactly when all of it. */
module MemoryRestore {
  import opened Arith
  import opened Bytes
  import opened Decimal
  import opened NdaModel
  import opened NdaStream
  import opened VectorStore
  import opened MemoryTransfer

  // ----- distinct elements

  ghost predicate Distinct<T>(xs: seq<T>) {
    forall i, j :: 0 <= i < j < |xs| ==> xs[i] != xs[j]
  }

  function Members<T>(xs: seq<T>): set<T> {
    set x | x in xs
  }

  lemma MembersSnoc<T>(xs: seq<T>, x: T)
    ensures Members(xs + [x]) == Members(xs) + {x}
  {
  }

  lemma MembersCons<T>(xs: seq<T>)
    requires xs != []
    ensures Members(xs) == {xs[0]} + Members(xs[1..])
  {
    assert xs == [xs[0]] + xs[1..];
  }

  lemma DistinctSnoc<T>(xs: seq<T>, x: T)
    ensures Distinct(xs + [x]) <==> Distinct(xs) && x !in xs
  {
    var all := xs + [x];
    if Distinct(all) {
      forall i, j | 0 <= i < j < |xs| ensures xs[i] != xs[j] { assert all[i] != all[j]; }
      assert forall i :: 0 <= i < |xs| ==> xs[i] == all[i] && all[i] != all[|xs|];
    }
  }

  /** As many members as elements exactly when no element repeats. */
  lemma {:induction false} MembersCount<T>(xs: seq<T>)
    ensures |Members(xs)| <= |xs| && (|Members(xs)| == |xs| <==> Distinct(xs))
  {
    if xs != [] {
      hide Distinct, Members;
      var init, x := xs[..|xs| - 1], xs[|xs| - 1];
      assert xs == init + [x];
      MembersCount(init);
      MembersSnoc(init, x);
      DistinctSnoc(init, x);
      assert x in Members(init) <==> x in init by { MemberIff(init, x); }
    } else {
      assert Members(xs) == {};
    }
  }

  lemma MemberIff<T>(xs: seq<T>, x: T)
    ensures x in Members(xs) <==> x in xs
  {
  }

  function NodeIds(nodes: seq<Node>): (ids: seq<Str>)
    ensures |ids| == |nodes|
  {
    seq(|nodes|, i requires 0 <= i < |nodes| => nodes[i].id)
  }

  function NodeHashes(nodes: seq<Node>): (hs: seq<Word64>)
    ensures |hs| == |nodes|
  {
    seq(|nodes|, i requires 0 <= i < |nodes| => nodes[i].hash)
  }

  // ----- the groups of an export

  /** Every subject listed has a group with all four required fields. */
  ghost predicate Complete(g: Groups, order: seq<Str>) {
    forall i :: 0 <= i < |order| ==> Whole(g, order[i])
  }

  ghost predicate Whole(g: Groups, id: Str) {
    id in g.parts && g.parts[id].session.Some? && g.parts[id].url.Some? && g.parts[id].text.Some? && g.parts[id].hash.Some?
  }

  /** The groups are listed once each and are whole. */
  ghost predicate Tidy(g: Groups) {
    Distinct(g.order) && Members(g.order) == g.parts.Keys && Complete(g, g.order)
  }

  lemma AddNodeTidy(g: Groups, n: Node)
    requires Tidy(g)
    ensures Tidy(AddNode(g, n)) && AddNode(g, n).parts.Keys == g.parts.Keys + {n.id}
  {
    hide Distinct;
    var r := AddNode(g, n);
    MemberIff(g.order, n.id);
    DistinctSnoc(g.order, n.id);
    MembersSnoc(g.order, n.id);
    forall i | 0 <= i < |r.order|
      ensures Whole(r, r.order[i])
    {
      if i < |g.order| { assert Whole(g, g.order[i]); }
    }
  }

  /** One whole group per distinct id. */
  lemma {:induction false} GatherTidy(g: Groups, nodes: seq<Node>)
    requires Tidy(g)
    ensures var r := Gather(g, nodes); Tidy(r) && r.parts.Keys == g.parts.Keys + Members(NodeIds(nodes))
    decreases |nodes|
  {
    hide Tidy, AddNode;
    var ids := NodeIds(nodes);
    if nodes == [] {
      assert Members(ids) == {};
    } else {
      AddNodeTidy(g, nodes[0]);
      GatherTidy(AddNode(g, nodes[0]), nodes[1..]);
      MembersCons(ids);
      assert ids[1..] == NodeIds(nodes[1..]);
    }
  }

  lemma NoGroupsTidy()
    ensures Tidy(NO_GROUPS)
  {
  }

  /** As many groups as distinct ids. */
  lemma GroupCount(nodes: seq<Node>)
    ensures var g := Gather(NO_GROUPS, nodes); Tidy(g) && |g.order| == |Members(NodeIds(nodes))|
  {
    hide Gather, Distinct, Members, Complete;
    NoGroupsTidy();
    GatherTidy(NO_GROUPS, nodes);
    MembersCount(Gather(NO_GROUPS, nodes).order);
  }

  /** What import holds for a node whose id is its own. */
  function Collected(n: Node): Partial {
    Partial(Some(n.session), Some(n.url), Some(n.text), Some(n.hash), n.tags, OutcomeInt(n.outcome) as real / 10000.0)
  }

  ghost predicate DistinctIds(nodes: seq<Node>) {
    Distinct(NodeIds(nodes))
  }

  ghost predicate DistinctHashes(nodes: seq<Node>) {
    Distinct(NodeHashes(nodes))
  }

  ghost predicate HasPages(g: Groups, nodes: seq<Node>) {
    forall i :: 0 <= i < |nodes| ==> nodes[i].id in g.parts && g.parts[nodes[i].id] == Collected(nodes[i])
  }

  lemma {:induction false} GatherKeeps(g: Groups, nodes: seq<Node>, id: Str)
    requires id in g.parts && id !in NodeIds(nodes)
    ensures id in Gather(g, nodes).parts && Gather(g, nodes).parts[id] == g.parts[id]
    decreases |nodes|
  {
    hide Join;
    if nodes != [] {
      assert NodeIds(nodes)[0] != id;
      assert NodeIds(nodes)[1..] == NodeIds(nodes[1..]);
      GatherKeeps(AddNode(g, nodes[0]), nodes[1..], id);
    }
  }

  lemma DistinctCons<T>(xs: seq<T>)
    requires xs != [] && Distinct(xs)
    ensures Distinct(xs[1..]) && xs[0] !in xs[1..]
  {
    var rest := xs[1..];
    forall i | 0 <= i < |rest| ensures rest[i] != xs[0] { assert rest[i] == xs[i + 1]; }
    forall i, j | 0 <= i < j < |rest| ensures rest[i] != rest[j] { assert xs[i + 1] != xs[j + 1]; }
  }

  ghost predicate Unseen(g: Groups, nodes: seq<Node>) {
    forall i :: 0 <= i < |nodes| ==> nodes[i].id !in g.parts
  }

  lemma AddDistinct(g: Groups, nodes: seq<Node>)
    requires nodes != [] && DistinctIds(nodes) && Unseen(g, nodes)
    ensures var g1, n := AddNode(g, nodes[0]), nodes[0];
            && DistinctIds(nodes[1..]) && Unseen(g1, nodes[1..]) && n.id !in NodeIds(nodes[1..])
            && g1.order == g.order + [n.id] && n.id in g1.parts && g1.parts[n.id] == Collected(n)
  {
    hide Distinct, OutcomeInt;
    var ids, n, rest := NodeIds(nodes), nodes[0], nodes[1..];
    DistinctCons(ids);
    assert ids[1..] == NodeIds(rest);
    assert n.id !in g.parts && [] + n.tags == n.tags;
    forall i | 0 <= i < |rest| ensures rest[i].id !in AddNode(g, n).parts {
      assert rest[i] == nodes[i + 1] && ids[1..][i] == rest[i].id;
    }
  }

  /** With distinct ids, each node is a group of its own, in order. */
  lemma {:induction false} GatherDistinct(g: Groups, nodes: seq<Node>)
    requires DistinctIds(nodes) && Unseen(g, nodes)
    ensures Gather(g, nodes).order == g.order + NodeIds(nodes) && HasPages(Gather(g, nodes), nodes)
    decreases |nodes|
  {
    hide DistinctIds, Unseen, AddNode, Collected;
    if nodes != [] {
      var n, rest := nodes[0], nodes[1..];
      AddDistinct(g, nodes);
      GatherDistinct(AddNode(g, n), rest);
      GatherKeeps(AddNode(g, n), rest, n.id);
      assert NodeIds(nodes) == [n.id] + NodeIds(rest);
      PagesCons(Gather(AddNode(g, n), rest), nodes);
    }
  }

  lemma PagesCons(g: Groups, nodes: seq<Node>)
    requires nodes != [] && HasPages(g, nodes[1..])
    requires nodes[0].id in g.parts && g.parts[nodes[0].id] == Collected(nodes[0])
    ensures HasPages(g, nodes)
  {
    hide Collected;
    forall i | 0 <= i < |nodes|
      ensures nodes[i].id in g.parts && g.parts[nodes[i].id] == Collected(nodes[i])
    {
      if i > 0 { assert nodes[i] == nodes[1..][i - 1]; }
    }
  }

  // ----- how many pages come back

  function PageHashes(g: Groups, order: seq<Str>): (hs: seq<Word64>)
    requires Complete(g, order)
    ensures |hs| == |order|
  {
    seq(|order|, i requires 0 <= i < |order| => assert Whole(g, order[i]); g.parts[order[i]].hash.value)
  }

  lemma RestoreHash(s: Store, g: Groups, id: Str)
    requires |s.nodes| < MAX_NODES && Whole(g, id)
    ensures var (s1, m) := RestoreOne(s, PartOf(g, id)); var h := g.parts[id].hash.value;
            && |s1.nodes| == |s.nodes| + m && s1.index.Keys == s.index.Keys + {h}
            && m == if h in s.index then 0 else 1
  {
    hide NodeId, Reindex;
  }

  /** Below the capacity, one page is restored for every hash the store does not yet know. */
  lemma {:induction false} RestoreCount(s: Store, g: Groups, order: seq<Str>)
    requires Complete(g, order) && |s.nodes| + |order| <= MAX_NODES
    ensures var (r, n) := RestoreAll(s, g, order);
            n + |s.index.Keys| == |s.index.Keys + Members(PageHashes(g, order))| && |r.nodes| == |s.nodes| + n
    decreases |order|
  {
    hide RestoreOne, Whole, Complete, Members, PageHashes;
    var hs := PageHashes(g, order);
    if order == [] {
      NoMembers(hs);
      assert s.index.Keys + Members(hs) == s.index.Keys;
    } else {
      PagesRest(g, order);
      RestoreHash(s, g, order[0]);
      var s1 := RestoreOne(s, PartOf(g, order[0])).0;
      RestoreCount(s1, g, order[1..]);
      MembersCons(hs);
      KeysCount(s.index.Keys, hs[0], Members(hs[1..]));
    }
  }

  lemma KeysCount(keys: set<Word64>, h: Word64, rest: set<Word64>)
    ensures keys + {h} + rest == keys + ({h} + rest)
    ensures |keys + {h}| == |keys| + if h in keys then 0 else 1
  {
    if h in keys { assert keys + {h} == keys; }
  }

  lemma PagesRest(g: Groups, order: seq<Str>)
    requires order != [] && Complete(g, order)
    ensures Whole(g, order[0]) && Complete(g, order[1..])
    ensures PageHashes(g, order)[0] == g.parts[order[0]].hash.value
    ensures PageHashes(g, order)[1..] == PageHashes(g, order[1..])
  {
    hide Whole;
    assert Whole(g, order[0]);
  }

  lemma NoMembers<T>(xs: seq<T>)
    requires xs == []
    ensures Members(xs) == {}
  {
  }

  /** Into an empty store, an import of any export restores one page per distinct hash of its groups. */
  lemma RestoredCount(nodes: seq<Node>)
    requires |nodes| <= MAX_NODES && 2 * |AllPushes(nodes)| <= U32
    ensures var g := Gather(NO_GROUPS, nodes); var (r, n) := Import(EMPTY_STORE, Export(nodes));
            && Complete(g, g.order) && |g.order| == |Members(NodeIds(nodes))| <= |nodes|
            && n == |r.nodes| == |Members(PageHashes(g, g.order))| <= |g.order|
  {
    hide AllPushes, Gather, RestoreAll, Import, Export, Members, PageHashes, Distinct, Complete;
    var g := Gather(NO_GROUPS, nodes);
    GroupCount(nodes);
    MembersCount(NodeIds(nodes));
    MembersCount(PageHashes(g, g.order));
    ImportGathers(EMPTY_STORE, nodes);
    RestoreCount(EMPTY_STORE, g, g.order);
    assert EMPTY_STORE.index.Keys + Members(PageHashes(g, g.order)) == Members(PageHashes(g, g.order));
  }

  lemma OwnHashes(g: Groups, nodes: seq<Node>)
    requires HasPages(g, nodes) && Complete(g, NodeIds(nodes))
    ensures PageHashes(g, NodeIds(nodes)) == NodeHashes(nodes)
  {
    hide OutcomeInt;
  }

  /**
    All pages of an export come back if and only if no two share an id and no two share a content hash.
    Every store qualifies: none holds more than `MAX_NODES` nodes.
   */
  lemma RestoresAllIff(nodes: seq<Node>)
    requires |nodes| <= MAX_NODES && 2 * |AllPushes(nodes)| <= U32
    ensures Import(EMPTY_STORE, Export(nodes)).1 == |nodes| <==> DistinctIds(nodes) && DistinctHashes(nodes)
  {
    hide AllPushes, Gather, Import, Export, Members, PageHashes, Distinct, Complete, NodeIds, NodeHashes, HasPages;
    var g := Gather(NO_GROUPS, nodes);
    RestoredCount(nodes);
    MembersCount(NodeIds(nodes));
    if DistinctIds(nodes) {
      GatherDistinct(NO_GROUPS, nodes);
      assert [] + NodeIds(nodes) == NodeIds(nodes);
      OwnHashes(g, nodes);
      MembersCount(NodeHashes(nodes));
    }
  }

  // ----- what comes back

  /** A node as it comes back: everything but the outcome's precision. */
  function Restored(n: Node): Node {
    n.(outcome := OutcomeInt(n.outcome) as real / 10000.0)
  }

  function RestoredAll(nodes: seq<Node>): (rs: seq<Node>)
    ensures |rs| == |nodes|
  {
    seq(|nodes|, i requires 0 <= i < |nodes| => Restored(nodes[i]))
  }

  /** The restored node at position `k`: its id is made anew from its session and that position. */
  function Renumbered(n: Node, k: nat): Node {
    Restored(n).(id := NodeId(n.session, k))
  }

  function RenumberedAll(nodes: seq<Node>): (rs: seq<Node>)
    ensures |rs| == |nodes|
  {
    seq(|nodes|, i requires 0 <= i < |nodes| => Renumbered(nodes[i], i))
  }

  function RestoredStore(nodes: seq<Node>): Store {
    Store(RenumberedAll(nodes), Reindex(RenumberedAll(nodes)))
  }

  lemma ScanNone(nodes: seq<Node>, h: Word64)
    requires forall j :: 0 <= j < |nodes| ==> nodes[j].hash != h
    ensures h !in Reindex(nodes)
  {
    LookupIsScan(nodes, h);
    ScanFindsLast(nodes, h);
  }

  lemma RestoreNode(s: Store, n: Node, k: nat)
    requires Consistent(s) && |s.nodes| == k < MAX_NODES
    requires forall j :: 0 <= j < |s.nodes| ==> s.nodes[j].hash != n.hash
    ensures var (s1, m) := RestoreOne(s, Collected(n));
            Consistent(s1) && s1.nodes == s.nodes + [Renumbered(n, k)] && m == 1
  {
    hide NodeId, Reindex, OutcomeInt;
    ScanNone(s.nodes, n.hash);
    var p := Page(n.session, n.url, n.text, n.hash, n.tags, OutcomeInt(n.outcome) as real / 10000.0);
    InsertConsistent(s, p);
    assert NodeOf(p, k) == Renumbered(n, k);
  }

  lemma HashesDiffer(nodes: seq<Node>, j: nat, k: nat)
    requires DistinctHashes(nodes) && j < k < |nodes|
    ensures nodes[j].hash != nodes[k].hash
  {
    assert NodeHashes(nodes)[j] != NodeHashes(nodes)[k];
  }

  /** Restoring the groups of nodes `k..` onto the restored nodes `..k` completes the list. */
  lemma {:induction false} RestoreFrom(s: Store, g: Groups, nodes: seq<Node>, k: nat)
    requires k <= |nodes| <= MAX_NODES && DistinctHashes(nodes) && HasPages(g, nodes)
    requires Consistent(s) && s.nodes == RenumberedAll(nodes)[..k]
    ensures RestoreAll(s, g, NodeIds(nodes)[k..]) == (RestoredStore(nodes), |nodes| - k)
    decreases |nodes| - k
  {
    hide Collected, RestoreOne, Reindex, NodeId, DistinctHashes, OutcomeInt;
    var order := NodeIds(nodes)[k..];
    if k == |nodes| {
      assert RenumberedAll(nodes)[..k] == RenumberedAll(nodes);
    } else {
      var n := nodes[k];
      assert order[0] == n.id && order[1..] == NodeIds(nodes)[k + 1..];
      forall j | 0 <= j < |s.nodes| ensures s.nodes[j].hash != n.hash {
        assert s.nodes[j] == Renumbered(nodes[j], j);
        HashesDiffer(nodes, j, k);
      }
      RestoreNode(s, n, k);
      var (s1, m) := RestoreOne(s, Collected(n));
      assert RenumberedAll(nodes)[..k + 1] == RenumberedAll(nodes)[..k] + [Renumbered(n, k)];
      RestoreFrom(s1, g, nodes, k + 1);
    }
  }

  lemma EmptyConsistent(nodes: seq<Node>)
    ensures Consistent(EMPTY_STORE) && EMPTY_STORE.nodes == RenumberedAll(nodes)[..0]
  {
  }

  /** With ids and hashes distinct, every page comes back in order, under the id of its new position. */
  lemma ExportImport(nodes: seq<Node>)
    requires |nodes| <= MAX_NODES && DistinctIds(nodes) && DistinctHashes(nodes) && 2 * |AllPushes(nodes)| <= U32
    ensures Import(EMPTY_STORE, Export(nodes)) == (RestoredStore(nodes), |nodes|)
  {
    hide AllPushes, Gather, RestoreAll, Import, Export, DistinctHashes, HasPages, RestoredStore, DistinctIds;
    var g := Gather(NO_GROUPS, nodes);
    GatherDistinct(NO_GROUPS, nodes);
    assert [] + NodeIds(nodes) == NodeIds(nodes) && NodeIds(nodes)[0..] == NodeIds(nodes);
    EmptyConsistent(nodes);
    RestoreFrom(EMPTY_STORE, g, nodes, 0);
    ImportGathers(EMPTY_STORE, nodes);
  }

  /** Every id is that of its position: what holds until the first eviction. */
  ghost predicate Positional(nodes: seq<Node>) {
    forall i :: 0 <= i < |nodes| ==> nodes[i].id == NodeId(nodes[i].session, i)
  }

  lemma NodeIdPosition(s: Str, t: Str, m: nat, n: nat)
    ensures NodeId(s, m) == NodeId(t, n) <==> s == t && m == n
  {
    hide Dec;
    if NodeId(s, m) == NodeId(t, n) {
      DecDigits(m);
      DecDigits(n);
      var x := NodeId(s, m);
      var a, b := |x| - |Dec(m)| - 1, |x| - |Dec(n)| - 1;
      assert x[a] == COLON && x[b] == COLON;
      assert x[a + 1..] == Dec(m) && x[b + 1..] == Dec(n);
      assert a == b;
      DecInjective(m, n);
      assert x[..a] == s && x[..b] == t;
    }
  }

  lemma PositionalDistinct(nodes: seq<Node>)
    requires Positional(nodes)
    ensures DistinctIds(nodes)
  {
    hide NodeId;
    forall i, j | 0 <= i < j < |nodes| ensures NodeIds(nodes)[i] != NodeIds(nodes)[j] {
      NodeIdPosition(nodes[i].session, nodes[j].session, i, j);
    }
  }

  lemma RenumberedIff(nodes: seq<Node>)
    ensures RenumberedAll(nodes) == RestoredAll(nodes) <==> Positional(nodes)
  {
    hide NodeId, OutcomeInt;
    if RenumberedAll(nodes) == RestoredAll(nodes) {
      forall i | 0 <= i < |nodes| ensures nodes[i].id == NodeId(nodes[i].session, i) {
        assert RenumberedAll(nodes)[i].id == RestoredAll(nodes)[i].id;
      }
    }
  }

  /** The nodes come back as they were, ids included, if and only if ids are positional and hashes distinct. */
  lemma SameNodesIff(nodes: seq<Node>)
    requires |nodes| <= MAX_NODES && 2 * |AllPushes(nodes)| <= U32
    ensures Import(EMPTY_STORE, Export(nodes)).0.nodes == RestoredAll(nodes)
            <==> Positional(nodes) && DistinctHashes(nodes)
  {
    hide AllPushes, Import, Export, DistinctIds, DistinctHashes, Positional, Members, Gather, PageHashes, Complete;
    RestoredCount(nodes);
    RestoresAllIff(nodes);
    RenumberedIff(nodes);
    if Positional(nodes) { PositionalDistinct(nodes); }
    if DistinctIds(nodes) && DistinctHashes(nodes) { ExportImport(nodes); }
  }

  /** The restored outcome is within half a step of the stored one, for every score the cast can hold. */
  lemma OutcomePrecision(n: Node)
    requires -0x8000_0000_0000_0000 <= Round(n.outcome * 10000.0) < 0x8000_0000_0000_0000
    ensures -1.0 / 20000.0 <= n.outcome - Restored(n).outcome <= 1.0 / 20000.0
  {
    RoundClose(n.outcome * 10000.0);
  }

  // ----- importing again

  ghost predicate KnownHashes(s: Store, g: Groups) {
    forall id :: id in g.parts && g.parts[id].hash.Some? ==> g.parts[id].hash.value in s.index
  }

  lemma {:induction false} GatherKnown(s: Store, g: Groups, nodes: seq<Node>)
    requires KnownHashes(s, g) && forall i :: 0 <= i < |nodes| ==> nodes[i].hash in s.index
    ensures KnownHashes(s, Gather(g, nodes))
    decreases |nodes|
  {
    hide OutcomeInt;
    if nodes != [] {
      assert nodes[0].hash in s.index;
      GatherKnown(s, AddNode(g, nodes[0]), nodes[1..]);
    }
  }

  lemma {:induction false} SkipAll(s: Store, g: Groups, order: seq<Str>)
    requires KnownHashes(s, g)
    ensures RestoreAll(s, g, order) == (s, 0)
    decreases |order|
  {
    hide Insert;
    if order != [] { SkipAll(s, g, order[1..]); }
  }

  /** A store that knows the hashes of all exported pages is left as it is, whatever their ids. */
  lemma ImportAgain(s: Store, nodes: seq<Node>)
    requires 2 * |AllPushes(nodes)| <= U32 && forall i :: 0 <= i < |nodes| ==> nodes[i].hash in s.index
    ensures Import(s, Export(nodes)) == (s, 0)
  {
    hide AllPushes, Gather, RestoreAll, Import, Export;
    ImportGathers(s, nodes);
    GatherKnown(s, NO_GROUPS, nodes);
    SkipAll(s, Gather(NO_GROUPS, nodes), Gather(NO_GROUPS, nodes).order);
  }

  /** Below the capacity, restoring groups leaves all their hashes known. */
  lemma {:induction false} RestoreKnows(s: Store, g: Groups, order: seq<Str>)
    requires |s.nodes| + |order| <= MAX_NODES && Complete(g, order)
    ensures var r := RestoreAll(s, g, order).0;
            s.index.Keys <= r.index.Keys && forall i :: 0 <= i < |order| ==> PageHashes(g, order)[i] in r.index
    decreases |order|
  {
    hide RestoreOne, Whole;
    if order != [] {
      RestoreHash(s, g, order[0]);
      assert Complete(g, order[1..]);
      RestoreKnows(RestoreOne(s, PartOf(g, order[0])).0, g, order[1..]);
      forall i | 0 <= i < |order| ensures PageHashes(g, order)[i] in RestoreAll(s, g, order).0.index {
        if i > 0 { assert PageHashes(g, order)[i] == PageHashes(g, order[1..])[i - 1]; }
      }
    }
  }

  /** Importing an export twice is importing it once, for every store of nodes, repeated ids and hashes included. */
  lemma SecondImportRestoresNothing(nodes: seq<Node>)
    requires |nodes| <= MAX_NODES && 2 * |AllPushes(nodes)| <= U32
    ensures var s := Import(EMPTY_STORE, Export(nodes)).0; Import(s, Export(nodes)) == (s, 0)
  {
    hide AllPushes, Gather, RestoreAll, Import, Export, Complete, Members, PageHashes, Distinct;
    var g := Gather(NO_GROUPS, nodes);
    var s := Import(EMPTY_STORE, Export(nodes)).0;
    RestoredCount(nodes);
    GroupCount(nodes);
    ImportGathers(EMPTY_STORE, nodes);
    ImportGathers(s, nodes);
    RestoreKnows(EMPTY_STORE, g, g.order);
    AllKnown(s, g);
    SkipAll(s, g, g.order);
  }

  lemma AllKnown(s: Store, g: Groups)
    requires Tidy(g) && forall i :: 0 <= i < |g.order| ==> PageHashes(g, g.order)[i] in s.index
    ensures KnownHashes(s, g)
  {
    forall id | id in g.parts && g.parts[id].hash.Some?
      ensures g.parts[id].hash.value in s.index
    {
      MemberIff(g.order, id);
      var i :| 0 <= i < |g.order| && g.order[i] == id;
      assert PageHashes(g, g.order)[i] in s.index;
    }
  }

  // ----- through the binary stream

  ghost predicate GoodNode(n: Node) {
    && GoodString(n.id) && GoodString(n.session) && GoodString(n.url) && GoodString(n.text)
    && forall i :: 0 <= i < |n.tags| ==> GoodString(n.tags[i])
  }

  ghost predicate GoodPush(op: PushOp) {
    GoodString(op.subject) && (op.StrPush? ==> GoodString(op.text))
  }

  lemma {:induction false} GoodPushes(nodes: seq<Node>)
    requires forall i :: 0 <= i < |nodes| ==> GoodNode(nodes[i])
    ensures forall i :: 0 <= i < |AllPushes(nodes)| ==> GoodPush(AllPushes(nodes)[i])
  {
    hide GoodString;
    if nodes != [] {
      GoodPushes(nodes[1..]);
      assert GoodNode(nodes[0]);
      GoodNodePushes(nodes[0]);
    }
  }

  lemma GoodNodePushes(n: Node)
    requires GoodNode(n)
    ensures forall i :: 0 <= i < |NodePushes(n)| ==> GoodPush(NodePushes(n)[i])
  {
    hide GoodString, BitsI64, OutcomeInt;
  }

  ghost predicate GoodDict(d: Dict) {
    forall i :: 0 <= i < |d.strings| ==> GoodString(d.strings[i])
  }

  lemma {:induction false} GoodExport(d: Document, ops: seq<PushOp>)
    requires Built(d) && |d.dict.strings| + 2 * |ops| <= U32 && GoodDict(d.dict)
    requires forall i :: 0 <= i < |ops| ==> GoodPush(ops[i])
    ensures GoodDict(PushAll(d, ops).dict)
    decreases |ops|
  {
    hide GoodString, Built;
    if ops != [] {
      assert Sound(d.dict) by { BuiltSound(d); }
      PushOneViews(d, ops[0]);
      assert GoodPush(ops[0]);
      GoodExport(PushOne(d, ops[0]), ops[1..]);
    }
  }

  /** The binary stream carries any export unchanged. */
  lemma ExportSurvives(nodes: seq<Node>)
    requires 2 * |AllPushes(nodes)| < U32 && forall i :: 0 <= i < |nodes| ==> GoodNode(nodes[i])
    ensures var bytes := Encode(Export(nodes)); Decode(bytes) == Ok((Export(nodes), |bytes|))
  {
    hide AllPushes, Encode, Decode, GoodNode, GoodPush, Inverts;
    var ops := AllPushes(nodes);
    EmptyBuilt();
    PushAllViews(EMPTY_DOC, ops);
    GoodPushes(nodes);
    GoodExport(EMPTY_DOC, ops);
    StreamRoundTrip(Export(nodes));
  }

  /**
    The whole journey: export, encode, decode and import into an empty store give back every page in order
    exactly when ids and hashes are distinct, and importing the same bytes once more restores nothing.
   */
  lemma MemorySurvives(nodes: seq<Node>)
    requires |nodes| <= MAX_NODES && 2 * |AllPushes(nodes)| < U32 && forall i :: 0 <= i < |nodes| ==> GoodNode(nodes[i])
    ensures var read := Decode(Encode(Export(nodes)));
            && read.Ok? && read.value.1 == |Encode(Export(nodes))|
            && var (s, n) := Import(EMPTY_STORE, read.value.0);
               && (n == |nodes| <==> DistinctIds(nodes) && DistinctHashes(nodes))
               && (n == |nodes| ==> s == RestoredStore(nodes))
               && Import(s, read.value.0) == (s, 0)
  {
    hide AllPushes, Encode, Decode, DistinctIds, DistinctHashes, GoodNode, Import, Export, RestoredStore;
    ExportSurvives(nodes);
    RestoresAllIff(nodes);
    if DistinctIds(nodes) && DistinctHashes(nodes) { ExportImport(nodes); }
    SecondImportRestoresNothing(nodes);
  }

  // ----- stores as inserts leave them

  /** The nodes of a store filled from empty, by position: those of the last pages. */
  lemma FilledNode(ps: seq<Page>, k: nat)
    requires k < |InsertAll(EMPTY_STORE, ps).nodes|
    ensures var nodes := InsertAll(EMPTY_STORE, ps).nodes; var i := |ps| - |nodes| + k;
            && |nodes| == (if |ps| < MAX_NODES then |ps| else MAX_NODES)
            && nodes[k] == NodeOf(ps[i], if i < MAX_NODES then i else MAX_NODES)
  {
    hide InsertAll, NodeOf;
    StoreHoldsLast(ps, 0);
  }

  /** No two pages inserted after the capacity was reached, and still held, share a session. */
  ghost predicate LateSessionsDistinct(ps: seq<Page>) {
    forall i, j :: MAX_NODES <= i < j < |ps| && |ps| - MAX_NODES <= i ==> ps[i].session != ps[j].session
  }

  lemma FilledIdsEqualIff(ps: seq<Page>, k: nat, l: nat)
    requires k < l < |InsertAll(EMPTY_STORE, ps).nodes|
    ensures var nodes := InsertAll(EMPTY_STORE, ps).nodes; var i, j := |ps| - |nodes| + k, |ps| - |nodes| + l;
            nodes[k].id == nodes[l].id <==> MAX_NODES <= i && ps[i].session == ps[j].session
  {
    hide InsertAll, NodeId;
    var nodes := InsertAll(EMPTY_STORE, ps).nodes;
    var i, j := |ps| - |nodes| + k, |ps| - |nodes| + l;
    FilledNode(ps, k);
    FilledNode(ps, l);
    NodeIdPosition(ps[i].session, ps[j].session, if i < MAX_NODES then i else MAX_NODES,
                   if j < MAX_NODES then j else MAX_NODES);
  }

  lemma FilledIdsDistinct(ps: seq<Page>)
    requires LateSessionsDistinct(ps)
    ensures DistinctIds(InsertAll(EMPTY_STORE, ps).nodes)
  {
    hide InsertAll;
    var nodes := InsertAll(EMPTY_STORE, ps).nodes;
    forall k, l | 0 <= k < l < |nodes| ensures NodeIds(nodes)[k] != NodeIds(nodes)[l] {
      FilledNode(ps, k);
      FilledIdsEqualIff(ps, k, l);
    }
  }

  lemma FilledSessionsDistinct(ps: seq<Page>)
    requires DistinctIds(InsertAll(EMPTY_STORE, ps).nodes)
    ensures LateSessionsDistinct(ps)
  {
    hide InsertAll, NodeOf;
    FilledSize(ps);
    var nodes := InsertAll(EMPTY_STORE, ps).nodes;
    var off := |ps| - |nodes|;
    forall i, j | MAX_NODES <= i < j < |ps| && |ps| - MAX_NODES <= i ensures ps[i].session != ps[j].session {
      FilledIdsEqualIff(ps, i - off, j - off);
      assert NodeIds(nodes)[i - off] != NodeIds(nodes)[j - off];
    }
  }

  /** Exactly when the held ids are distinct, told from the pages inserted. */
  lemma FilledIdsDistinctIff(ps: seq<Page>)
    ensures DistinctIds(InsertAll(EMPTY_STORE, ps).nodes) <==> LateSessionsDistinct(ps)
  {
    hide InsertAll, DistinctIds, LateSessionsDistinct;
    if LateSessionsDistinct(ps) { FilledIdsDistinct(ps); }
    if DistinctIds(InsertAll(EMPTY_STORE, ps).nodes) { FilledSessionsDistinct(ps); }
  }

  lemma FilledPositional(ps: seq<Page>)
    requires |ps| <= MAX_NODES
    ensures Positional(InsertAll(EMPTY_STORE, ps).nodes)
  {
    hide InsertAll, NodeId;
    FilledSize(ps);
    var nodes := InsertAll(EMPTY_STORE, ps).nodes;
    forall i | 0 <= i < |nodes| ensures nodes[i].id == NodeId(nodes[i].session, i) { FilledNode(ps, i); }
  }

  lemma EvictedNotPositional(ps: seq<Page>)
    requires |ps| > MAX_NODES
    ensures !Positional(InsertAll(EMPTY_STORE, ps).nodes)
  {
    hide InsertAll, NodeId;
    FilledSize(ps);
    var nodes := InsertAll(EMPTY_STORE, ps).nodes;
    FilledNode(ps, 0);
    var i := |ps| - MAX_NODES;
    NodeIdPosition(ps[i].session, ps[i].session, if i < MAX_NODES then i else MAX_NODES, 0);
    assert nodes[0].id != NodeId(nodes[0].session, 0);
  }

  lemma FilledSize(ps: seq<Page>)
    ensures |InsertAll(EMPTY_STORE, ps).nodes| == (if |ps| < MAX_NODES then |ps| else MAX_NODES)
  {
    hide InsertAll;
    StoreHoldsLast(ps, 0);
  }

  /**
    For every store that inserts can reach: all its pages survive export and import if and only if their
    hashes are distinct and no two pages inserted since the store was full share a session; the nodes come
    back with their ids if and only if, besides, nothing has been evicted.
   */
  lemma FilledStoreRestoredIff(ps: seq<Page>)
    requires 2 * |AllPushes(InsertAll(EMPTY_STORE, ps).nodes)| <= U32
    ensures var nodes := InsertAll(EMPTY_STORE, ps).nodes; var (r, n) := Import(EMPTY_STORE, Export(nodes));
            && (n == |nodes| <==> LateSessionsDistinct(ps) && DistinctHashes(nodes))
            && (r.nodes == RestoredAll(nodes) <==> |ps| <= MAX_NODES && DistinctHashes(nodes))
  {
    hide AllPushes, Import, Export, DistinctIds, DistinctHashes, Positional, LateSessionsDistinct, InsertAll, NodeOf;
    StoreHoldsLast(ps, 0);
    var nodes := InsertAll(EMPTY_STORE, ps).nodes;
    RestoresAllIff(nodes);
    SameNodesIff(nodes);
    FilledIdsDistinctIff(ps);
    if |ps| <= MAX_NODES { FilledPositional(ps); } else { EvictedNotPositional(ps); }
  }

  // ----- a store that loses a page

  /** Tagless pages of one session with consecutive hashes. */
  function PlainPages(n: nat): (ps: seq<Page>)
    requires n < U64
    ensures |ps| == n
  {
    seq(n, i requires 0 <= i < n => Page([], [], [], i, [], 0.0))
  }

  lemma {:induction false} PlainPushes(nodes: seq<Node>)
    requires forall i :: 0 <= i < |nodes| ==> nodes[i].tags == []
    ensures |AllPushes(nodes)| == 5 * |nodes|
  {
    hide OutcomeInt, BitsI64;
    if nodes != [] { PlainPushes(nodes[1..]); }
  }

  /** Two inserts past the capacity, one session, all hashes distinct: a page is lost. */
  lemma EvictionLosesAPage()
    ensures var nodes := InsertAll(EMPTY_STORE, PlainPages(2050)).nodes;
            && |nodes| == 2048 && DistinctHashes(nodes) && 2 * |AllPushes(nodes)| <= U32
            && Import(EMPTY_STORE, Export(nodes)).1 < 2048
  {
    hide InsertAll, AllPushes, Import, Export, NodeId, LateSessionsDistinct;
    var ps := PlainPages(2050);
    StoreHoldsLast(ps, 0);
    var nodes := InsertAll(EMPTY_STORE, ps).nodes;
    forall k | 0 <= k < |nodes| ensures nodes[k].tags == [] && nodes[k].hash == k + 2 { FilledNode(ps, k); }
    PlainPushes(nodes);
    assert !LateSessionsDistinct(ps) by { SharedSession(ps); }
    FilledStoreRestoredIff(ps);
    RestoredCount(nodes);
  }

  lemma SharedSession(ps: seq<Page>)
    requires ps == PlainPages(2050)
    ensures !LateSessionsDistinct(ps)
  {
    assert ps[2048].session == ps[2049].session;
  }
}
