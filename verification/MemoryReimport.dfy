/** Importing one document twice into a store that already holds pages: exactly when the second import is idle. */
module MemoryReimport {
  import opened Bytes
  import opened VectorStore
  import opened MemoryTransfer
  import opened MemoryRestore

  /** The hashes that importing pages with hashes `hs` inserts into a store with hashes `known`, in order. */
  function Inserts(known: seq<Word64>, hs: seq<Word64>): seq<Word64>
    decreases |hs|
  {
    if hs == [] then []
    else if hs[0] in known then Inserts(known, hs[1..])
    else [hs[0]] + Inserts(LastN(known + [hs[0]], MAX_NODES), hs[1..])
  }

  lemma KnownIff(nodes: seq<Node>, h: Word64)
    ensures h in Reindex(nodes) <==> h in NodeHashes(nodes)
  {
    hide Reindex, LastWith;
    LookupIsScan(nodes, h);
    ScanFindsLast(nodes, h);
    if LastWith(nodes, h).Some? { assert NodeHashes(nodes)[LastWith(nodes, h).value] == h; }
  }

  lemma HashesOfLast(nodes: seq<Node>, n: Node, k: nat)
    ensures NodeHashes(LastN(nodes + [n], k)) == LastN(NodeHashes(nodes) + [n.hash], k)
  {
  }

  lemma RestoreHashes(s: Store, g: Groups, id: Str)
    requires Consistent(s) && Whole(g, id)
    ensures var (s1, m) := RestoreOne(s, PartOf(g, id)); var h, known := g.parts[id].hash.value, NodeHashes(s.nodes);
            && Consistent(s1)
            && NodeHashes(s1.nodes) == (if h in known then known else LastN(known + [h], MAX_NODES))
            && m == if h in known then 0 else 1
  {
    hide NodeId, Reindex, Insert, NodeHashes, LastN;
    var p := g.parts[id];
    KnownIff(s.nodes, p.hash.value);
    var page := Page(p.session.value, p.url.value, p.text.value, p.hash.value, p.tags, p.outcome);
    InsertConsistent(s, page);
    HashesOfLast(s.nodes, NodeOf(page, |s.nodes|), MAX_NODES);
  }

  /** What an import does to the hashes held: those it inserts come after, and the oldest go. */
  lemma {:induction false} RestoreTrace(s: Store, g: Groups, order: seq<Str>)
    requires Consistent(s) && Complete(g, order)
    ensures var (r, n) := RestoreAll(s, g, order); var known := NodeHashes(s.nodes);
            var added := Inserts(known, PageHashes(g, order));
            Consistent(r) && n == |added| && NodeHashes(r.nodes) == LastN(known + added, MAX_NODES)
    decreases |order|
  {
    hide RestoreOne, Whole, Complete, PageHashes, Reindex, LastN;
    var known, hs := NodeHashes(s.nodes), PageHashes(g, order);
    if order == [] {
      assert known + [] == known;
      ShortLast(known);
    } else {
      PagesRest(g, order);
      RestoreHashes(s, g, order[0]);
      RestoreTrace(RestoreOne(s, PartOf(g, order[0])).0, g, order[1..]);
      if hs[0] !in known {
        var next := LastN(known + [hs[0]], MAX_NODES);
        LastOfLast(known + [hs[0]], Inserts(next, hs[1..]), MAX_NODES);
        assert known + [hs[0]] + Inserts(next, hs[1..]) == known + Inserts(known, hs);
      }
    }
  }

  lemma ShortLast(xs: seq<Word64>)
    requires |xs| <= MAX_NODES
    ensures LastN(xs, MAX_NODES) == xs
  {
  }

  lemma {:induction false} InsertsNone(known: seq<Word64>, hs: seq<Word64>)
    ensures Inserts(known, hs) == [] <==> forall i :: 0 <= i < |hs| ==> hs[i] in known
    decreases |hs|
  {
    hide LastN;
    if hs != [] && hs[0] in known {
      InsertsNone(known, hs[1..]);
      forall i | 1 <= i < |hs| ensures hs[i] == hs[1..][i - 1] {
      }
    }
  }

  /** The hashes of an export's pages, in the order an import meets them. */
  function ExportHashes(nodes: seq<Node>): seq<Word64> {
    var g := Gather(NO_GROUPS, nodes);
    GroupCount(nodes);
    PageHashes(g, g.order)
  }

  lemma ImportTrace(s: Store, nodes: seq<Node>)
    requires Consistent(s) && 2 * |AllPushes(nodes)| <= U32
    ensures var (t, n) := Import(s, Export(nodes)); var known := NodeHashes(s.nodes);
            var added := Inserts(known, ExportHashes(nodes));
            Consistent(t) && n == |added| && NodeHashes(t.nodes) == LastN(known + added, MAX_NODES)
  {
    hide AllPushes, Gather, RestoreAll, Import, Export, PageHashes, Distinct, Members, Consistent, Inserts, LastN, Complete;
    GroupCount(nodes);
    ImportGathers(s, nodes);
    RestoreTrace(s, Gather(NO_GROUPS, nodes), Gather(NO_GROUPS, nodes).order);
  }

  /**
    Importing a document twice is importing it once exactly when every page of it is among the last 2048
    of the pages held before followed by those the import inserts: none is skipped as known and then evicted.
   */
  lemma ReimportIff(s: Store, nodes: seq<Node>)
    requires Consistent(s) && 2 * |AllPushes(nodes)| <= U32
    ensures var t := Import(s, Export(nodes)).0; var known, hs := NodeHashes(s.nodes), ExportHashes(nodes);
            Import(t, Export(nodes)) == (t, 0)
            <==> forall i :: 0 <= i < |hs| ==> hs[i] in LastN(known + Inserts(known, hs), MAX_NODES)
  {
    hide AllPushes, Import, Export, Inserts, LastN, ExportHashes, Consistent, NodeHashes, Gather;
    var t := Import(s, Export(nodes)).0;
    ImportTrace(s, nodes);
    ImportTrace(t, nodes);
    InsertsNone(NodeHashes(t.nodes), ExportHashes(nodes));
    if Inserts(NodeHashes(t.nodes), ExportHashes(nodes)) == [] { NothingRestored(t, nodes); }
  }

  /** An import that restores nothing changes nothing. */
  lemma NothingRestored(t: Store, nodes: seq<Node>)
    requires 2 * |AllPushes(nodes)| <= U32 && Import(t, Export(nodes)).1 == 0
    ensures Import(t, Export(nodes)) == (t, 0)
  {
    hide AllPushes, Gather, RestoreAll, Import, Export, InsertAll;
    ImportGathers(t, nodes);
    var g := Gather(NO_GROUPS, nodes);
    var ps := RestoreInserts(t, g, g.order);
    assert ps == [];
    NoInserts(t);
  }

  /** A hash of the document is inserted or was known. */
  lemma {:induction false} InsertedOrKnown(known: seq<Word64>, hs: seq<Word64>, h: Word64)
    requires h in hs
    ensures h in Inserts(known, hs) || h in known
    decreases |hs|
  {
    if h != hs[0] {
      assert h in hs[1..];
      if hs[0] in known {
        InsertedOrKnown(known, hs[1..], h);
      } else {
        InsertedOrKnown(LastN(known + [hs[0]], MAX_NODES), hs[1..], h);
      }
    }
  }

  /** The position before which a store evicts when `extra` pages are added. */
  function Cut(held: nat, extra: nat): nat {
    if held + extra <= MAX_NODES then 0 else held + extra - MAX_NODES
  }

  /** If the known hashes lie past what the new ones evict, only the new ones are inserted. */
  lemma {:induction false} InsertsAtMost(known: seq<Word64>, hs: seq<Word64>, added: set<Word64>)
    requires |known| <= MAX_NODES && |added| <= MAX_NODES
    requires forall i :: 0 <= i < |hs| ==> hs[i] in added || hs[i] in known[Cut(|known|, |added|)..]
    ensures |Inserts(known, hs)| <= |added|
    decreases |hs|
  {
    if hs != [] {
      var h, e := hs[0], Cut(|known|, |added|);
      assert forall i :: 0 <= i < |hs[1..]| ==> hs[1..][i] == hs[i + 1];
      if h in known {
        InsertsAtMost(known, hs[1..], added);
      } else {
        assert h in added;
        var next, rest := LastN(known + [h], MAX_NODES), added - {h};
        assert next[Cut(|next|, |rest|)..] == (known + [h])[e..] == known[e..] + [h];
        InsertsAtMost(next, hs[1..], rest);
      }
    }
  }

  /** The distinct hashes of a document that a store does not hold. */
  function NewHashes(known: seq<Word64>, hs: seq<Word64>): set<Word64> {
    Members(hs) - Members(known)
  }

  lemma WindowParts(a: seq<Word64>, b: seq<Word64>)
    requires |a| <= MAX_NODES && |b| <= MAX_NODES
    ensures Cut(|a|, |b|) <= |a| && LastN(a + b, MAX_NODES) == a[Cut(|a|, |b|)..] + b
  {
  }

  lemma DropFewer(xs: seq<Word64>, e: nat, f: nat, h: Word64)
    requires e <= f <= |xs| && h in xs[f..]
    ensures h in xs[e..]
  {
    assert xs[e..] == xs[e..f] + xs[f..];
  }

  lemma RoomSuffices(known: seq<Word64>, hs: seq<Word64>, h: Word64)
    requires |known| <= MAX_NODES && |NewHashes(known, hs)| <= MAX_NODES && h in hs
    requires forall i :: 0 <= i < |hs| && hs[i] in known ==> hs[i] in known[Cut(|known|, |NewHashes(known, hs)|)..]
    ensures h in LastN(known + Inserts(known, hs), MAX_NODES)
  {
    hide Inserts, LastN, Members;
    var added, ins := NewHashes(known, hs), Inserts(known, hs);
    forall i | 0 <= i < |hs| ensures hs[i] in added || hs[i] in known[Cut(|known|, |added|)..] {
      MemberIff(hs, hs[i]);
      MemberIff(known, hs[i]);
    }
    InsertsAtMost(known, hs, added);
    InsertedOrKnown(known, hs, h);
    WindowParts(known, ins);
    if h !in ins { DropFewer(known, Cut(|known|, |ins|), Cut(|known|, |added|), h); }
  }

  /**
    A condition that does not depend on the order of the pages: importing twice is importing once if every
    known page lies past the positions that as many inserts as there are new hashes would evict.
   */
  lemma ReimportRestoresNothing(s: Store, nodes: seq<Node>)
    requires Consistent(s) && 2 * |AllPushes(nodes)| <= U32
    requires var known, hs := NodeHashes(s.nodes), ExportHashes(nodes); var added := NewHashes(known, hs);
             && |added| <= MAX_NODES
             && forall i :: 0 <= i < |hs| && hs[i] in known ==> hs[i] in known[Cut(|known|, |added|)..]
    ensures var t := Import(s, Export(nodes)).0; Import(t, Export(nodes)) == (t, 0)
  {
    hide AllPushes, Import, Export, Inserts, LastN, ExportHashes, NewHashes, Reindex;
    var known, hs := NodeHashes(s.nodes), ExportHashes(nodes);
    forall i | 0 <= i < |hs| ensures hs[i] in LastN(known + Inserts(known, hs), MAX_NODES) {
      RoomSuffices(known, hs, hs[i]);
    }
    ReimportIff(s, nodes);
  }

  /** In particular, while the store has room for every page of the document. */
  lemma ReimportWithRoom(s: Store, nodes: seq<Node>)
    requires Consistent(s) && 2 * |AllPushes(nodes)| <= U32
    requires |s.nodes| + |Members(NodeIds(nodes))| <= MAX_NODES
    ensures var t := Import(s, Export(nodes)).0; Import(t, Export(nodes)) == (t, 0)
  {
    hide AllPushes, Import, Export, Gather, PageHashes, Distinct, Complete, Reindex;
    var known, hs := NodeHashes(s.nodes), ExportHashes(nodes);
    GroupCount(nodes);
    MembersCount(hs);
    FewerNew(known, hs);
    assert known[0..] == known;
    ReimportRestoresNothing(s, nodes);
  }

  lemma FewerNew(known: seq<Word64>, hs: seq<Word64>)
    ensures |NewHashes(known, hs)| <= |Members(hs)|
  {
    hide Members;
    SubsetSize(NewHashes(known, hs), Members(hs));
  }

  lemma SubsetSize(a: set<Word64>, b: set<Word64>)
    requires a <= b
    ensures |a| <= |b|
  {
    assert b == a + (b - a);
  }

  /** A page already held, and a new one. */
  function KnownAndNew(): seq<Node> {
    [Node([1], [], [], [], 0, [], 0.0), Node([2], [], [], [], 5000, [], 0.0)]
  }

  lemma KnownAndNewDistinct()
    ensures var nodes := KnownAndNew(); DistinctIds(nodes) && Unseen(NO_GROUPS, nodes)
    ensures NodeHashes(KnownAndNew()) == [0, 5000]
  {
    var nodes := KnownAndNew();
    assert NodeIds(nodes)[0] == [1] && NodeIds(nodes)[1] == [2];
  }

  lemma KnownAndNewHashes()
    ensures ExportHashes(KnownAndNew()) == [0, 5000] && |AllPushes(KnownAndNew())| == 10
  {
    hide DistinctIds, Unseen, Gather, PageHashes, HasPages, Members, NodeHashes, AllPushes, Distinct, Complete;
    var nodes := KnownAndNew();
    KnownAndNewDistinct();
    GroupCount(nodes);
    GatherDistinct(NO_GROUPS, nodes);
    assert [] + NodeIds(nodes) == NodeIds(nodes);
    OwnHashes(Gather(NO_GROUPS, nodes), nodes);
    PlainPushes(nodes);
  }

  /** A full store: the first import skips the oldest page and evicts it, so the second restores a page again. */
  lemma ReimportRestoresAgain()
    ensures var s := InsertAll(EMPTY_STORE, PlainPages(2048)); var nodes := KnownAndNew();
            && 2 * |AllPushes(nodes)| <= U32
            && var (t, n) := Import(s, Export(nodes)); n == 1 && Import(t, Export(nodes)).1 == 1
  {
    hide InsertAll, AllPushes, Import, Export, Inserts, LastN, NodeHashes, ExportHashes, Consistent;
    var ps, nodes := PlainPages(2048), KnownAndNew();
    var s := InsertAll(EMPTY_STORE, ps);
    KnownAndNewHashes();
    EmptyConsistent([]);
    InsertAllKeepsLast(EMPTY_STORE, ps);
    PlainHashes(s);
    ImportTrace(s, nodes);
    var t := Import(s, Export(nodes)).0;
    ImportTrace(t, nodes);
    FirstImport(NodeHashes(s.nodes));
    SecondImport(NodeHashes(t.nodes));
  }

  lemma PlainHashes(s: Store)
    requires s == InsertAll(EMPTY_STORE, PlainPages(2048))
    ensures |NodeHashes(s.nodes)| == 2048 && forall i :: 0 <= i < 2048 ==> NodeHashes(s.nodes)[i] == i
  {
    hide InsertAll, NodeId;
    FilledSize(PlainPages(2048));
    forall i | 0 <= i < 2048 ensures NodeHashes(s.nodes)[i] == i { FilledNode(PlainPages(2048), i); }
  }

  lemma FirstImport(known: seq<Word64>)
    requires |known| == 2048 && forall i :: 0 <= i < 2048 ==> known[i] == i
    ensures Inserts(known, [0, 5000]) == [5000]
    ensures var next := LastN(known + [5000], MAX_NODES);
            |next| == 2048 && next[2047] == 5000 && forall i :: 0 <= i < 2047 ==> next[i] == i + 1
  {
    assert known[0] == 0 && 5000 !in known;
    assert [0, 5000][1..] == [5000] && [5000][1..] == [];
    assert Inserts(known, [5000]) == [5000] + Inserts(LastN(known + [5000], MAX_NODES), []);
  }

  lemma SecondImport(known: seq<Word64>)
    requires |known| == 2048 && known[2047] == 5000 && forall i :: 0 <= i < 2047 ==> known[i] == i + 1
    ensures Inserts(known, [0, 5000]) == [0]
  {
    assert 0 !in known;
    var next := LastN(known + [0], MAX_NODES);
    assert next[2046] == 5000;
    assert [0, 5000][1..] == [5000] && [5000][1..] == [];
    assert Inserts(next, [5000]) == Inserts(next, []);
  }
}
