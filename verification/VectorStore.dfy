/** The site memory: a bounded list of pages and a hash index that must agree with it. */
module VectorStore {
  import opened Bytes
  import opened Decimal

  /** A remembered page. Its embedding is a function of `text` and is not stored here. */
  datatype Node = Node(id: Str, session: Str, url: Str, text: Str, hash: Word64, tags: seq<Str>, outcome: real)

  /** What a caller supplies for a page. */
  datatype Page = Page(session: Str, url: Str, text: Str, hash: Word64, tags: seq<Str>, outcome: real)

  datatype Store = Store(nodes: seq<Node>, index: map<Word64, nat>)

  const MAX_NODES := 2048
  const COLON: Byte := 58

  const EMPTY_STORE := Store([], map[])

  /** `format!("{session}:{n}")`. */
  function NodeId(session: Str, n: nat): Str {
    session + [COLON] + Dec(n)
  }

  function NodeOf(p: Page, n: nat): Node {
    Node(NodeId(p.session, n), p.session, p.url, p.text, p.hash, p.tags, p.outcome)
  }

  // ----- the index

  /** The index of a node list: each hash to its last position. */
  function Reindex(nodes: seq<Node>): map<Word64, nat> {
    if nodes == [] then map[]
    else Reindex(nodes[..|nodes| - 1])[nodes[|nodes| - 1].hash := |nodes| - 1]
  }

  /** A linear scan from the back. */
  function LastWith(nodes: seq<Node>, h: Word64): Option<nat> {
    if nodes == [] then None
    else if nodes[|nodes| - 1].hash == h then Some(|nodes| - 1)
    else LastWith(nodes[..|nodes| - 1], h)
  }

  function Lookup(index: map<Word64, nat>, h: Word64): Option<nat> {
    if h in index then Some(index[h]) else None
  }

  /** Looking a hash up gives what scanning the nodes gives. */
  lemma {:induction false} LookupIsScan(nodes: seq<Node>, h: Word64)
    ensures Lookup(Reindex(nodes), h) == LastWith(nodes, h)
  {
    if nodes != [] {
      LookupIsScan(nodes[..|nodes| - 1], h);
    }
  }

  /** What the scan finds: the last node with the hash, or that there is none. */
  lemma {:induction false} ScanFindsLast(nodes: seq<Node>, h: Word64)
    ensures match LastWith(nodes, h)
            case Some(i) => i < |nodes| && nodes[i].hash == h && (forall j :: i < j < |nodes| ==> nodes[j].hash != h)
            case None => forall j :: 0 <= j < |nodes| ==> nodes[j].hash != h
  {
    if nodes != [] && nodes[|nodes| - 1].hash != h {
      ScanFindsLast(nodes[..|nodes| - 1], h);
    }
  }

  // ----- inserting

  /** The last `n` elements. */
  function LastN<T>(s: seq<T>, n: nat): seq<T> {
    if |s| <= n then s else s[|s| - n..]
  }

  /** `insert` and `insert_rich`: append, index, and evict the oldest nodes over capacity. */
  function Insert(s: Store, p: Page): Store {
    var nodes := s.nodes + [NodeOf(p, |s.nodes|)];
    if |nodes| > MAX_NODES then
      var kept := nodes[|nodes| - MAX_NODES..];
      Store(kept, Reindex(kept))
    else Store(nodes, s.index[p.hash := |s.nodes|])
  }

  function InsertAll(s: Store, ps: seq<Page>): Store
    decreases |ps|
  {
    if ps == [] then s else InsertAll(Insert(s, ps[0]), ps[1..])
  }

  /** The index is exactly the one a full scan would build, and the capacity holds. */
  ghost predicate Consistent(s: Store) {
    s.index == Reindex(s.nodes) && |s.nodes| <= MAX_NODES
  }

  lemma InsertConsistent(s: Store, p: Page)
    requires Consistent(s)
    ensures Consistent(Insert(s, p))
    ensures Insert(s, p).nodes == LastN(s.nodes + [NodeOf(p, |s.nodes|)], MAX_NODES)
  {
    var nodes := s.nodes + [NodeOf(p, |s.nodes|)];
    assert nodes[..|s.nodes|] == s.nodes;
  }

  /** All nodes ever inserted, oldest first: the id suffix stops growing at the capacity. */
  function Inserted(ps: seq<Page>, start: nat): (nodes: seq<Node>)
    ensures |nodes| == |ps|
  {
    seq(|ps|, i requires 0 <= i < |ps| => NodeOf(ps[i], if start + i < MAX_NODES then start + i else MAX_NODES))
  }

  /** After any inserts the store holds exactly the last ones, in order, and lookups agree with a scan. */
  lemma {:induction false} InsertAllKeepsLast(s: Store, ps: seq<Page>)
    requires Consistent(s)
    ensures Consistent(InsertAll(s, ps))
    ensures InsertAll(s, ps).nodes == LastN(s.nodes + Inserted(ps, |s.nodes|), MAX_NODES)
    decreases |ps|
  {
    if ps == [] {
      assert s.nodes + Inserted(ps, |s.nodes|) == s.nodes;
    } else {
      InsertConsistent(s, ps[0]);
      var next := Insert(s, ps[0]);
      InsertAllKeepsLast(next, ps[1..]);
      SuffixStep(s, ps);
    }
  }

  lemma SuffixStep(s: Store, ps: seq<Page>)
    requires Consistent(s) && ps != []
    ensures var next := Insert(s, ps[0]);
            LastN(next.nodes + Inserted(ps[1..], |next.nodes|), MAX_NODES)
            == LastN(s.nodes + Inserted(ps, |s.nodes|), MAX_NODES)
  {
    hide Reindex, NodeOf;
    InsertConsistent(s, ps[0]);
    var next, m := Insert(s, ps[0]), |s.nodes|;
    var first, rest := NodeOf(ps[0], m), Inserted(ps[1..], |next.nodes|);
    assert Inserted(ps, m) == [first] + rest;
    assert s.nodes + Inserted(ps, m) == s.nodes + [first] + rest;
    LastOfLast(s.nodes + [first], rest, MAX_NODES);
  }

  lemma LastOfLast<T>(a: seq<T>, b: seq<T>, n: nat)
    ensures LastN(LastN(a, n) + b, n) == LastN(a + b, n)
  {
  }

  /** From an empty store: the last 2048 pages, and a lookup that agrees with scanning them. */
  lemma StoreHoldsLast(ps: seq<Page>, h: Word64)
    ensures var s := InsertAll(EMPTY_STORE, ps);
            && s.nodes == LastN(Inserted(ps, 0), MAX_NODES)
            && Lookup(s.index, h) == LastWith(s.nodes, h)
  {
    hide InsertAll, Inserted, LastN;
    InsertAllKeepsLast(EMPTY_STORE, ps);
    assert [] + Inserted(ps, 0) == Inserted(ps, 0);
    LookupIsScan(InsertAll(EMPTY_STORE, ps).nodes, h);
  }

  /** A node id is the session, a colon (byte 58) and the number of nodes held, in decimal. */
  lemma NodeIdIs(session: Str, n: nat)
    ensures |NodeId(session, n)| == |session| + 1 + |Dec(n)|
    ensures NodeId(session, n)[..|session|] == session && NodeId(session, n)[|session|] == 58
    ensures NodeId(session, n)[|session| + 1..] == Dec(n)
  {
    hide Dec;
  }
}
