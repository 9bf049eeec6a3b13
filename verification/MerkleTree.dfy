/**
  Roots of lists of different lengths. Seen as a tree, a root binds its leaves whatever their number, as long
  as no leaf has the length of the input of an inner node.
 */
module MerkleTree {
  import opened Bytes
  import opened Merkle

  datatype Tree = Tip(bytes: seq<Byte>) | Fork(left: Tree, right: Tree)

  /** The bytes hashed at the top of a tree. */
  function Input(h: Hash, t: Tree): seq<Byte> {
    match t
    case Tip(bytes) => bytes
    case Fork(l, r) => Concat(h(Input(h, l)), h(Input(h, r)))
  }

  function TreeDigest(h: Hash, t: Tree): Digest {
    h(Input(h, t))
  }

  function Fringe(t: Tree): seq<seq<Byte>> {
    match t
    case Tip(bytes) => [bytes]
    case Fork(l, r) => Fringe(l) + Fringe(r)
  }

  /** No leaf can be taken for an inner node. */
  predicate Narrow(t: Tree) {
    match t
    case Tip(bytes) => |bytes| != 64
    case Fork(l, r) => Narrow(l) && Narrow(r)
  }

  /** Two different trees under one digest contain a colliding pair, whatever their shapes. */
  function TreeCollision(h: Hash, a: Tree, b: Tree): (pair: (seq<Byte>, seq<Byte>))
    requires a != b && TreeDigest(h, a) == TreeDigest(h, b) && Narrow(a) && Narrow(b)
    ensures Collision(h, pair)
    decreases a
  {
    if Input(h, a) != Input(h, b) then (Input(h, a), Input(h, b))
    else
      var left, right := h(Input(h, a.left)), h(Input(h, a.right));
      assert Input(h, a)[..32] == left && Input(h, a)[32..] == right;
      assert Input(h, b)[..32] == h(Input(h, b.left)) && Input(h, b)[32..] == h(Input(h, b.right));
      if a.left != b.left then TreeCollision(h, a.left, b.left) else TreeCollision(h, a.right, b.right)
  }

  /** The inputs hashed at the inner nodes of a tree. */
  function InnerInputs(h: Hash, t: Tree): set<seq<Byte>> {
    match t
    case Tip(_) => {}
    case Fork(l, r) => {Input(h, t)} + InnerInputs(h, l) + InnerInputs(h, r)
  }

  /** Why two different trees share a digest: a collision, or a leaf of one that spells an inner node of the other. */
  datatype Evidence = Colliding(x: seq<Byte>, y: seq<Byte>) | Spelled(leaf: seq<Byte>)

  predicate Explains(h: Hash, a: Tree, b: Tree, e: Evidence) {
    match e
    case Colliding(x, y) => Collision(h, (x, y))
    case Spelled(leaf) =>
      (leaf in Fringe(a) && leaf in InnerInputs(h, b)) || (leaf in Fringe(b) && leaf in InnerInputs(h, a))
  }

  /** The evidence, computed from any two different trees under one digest. */
  function TreeEvidence(h: Hash, a: Tree, b: Tree): (e: Evidence)
    requires a != b && TreeDigest(h, a) == TreeDigest(h, b)
    ensures Explains(h, a, b, e)
    decreases a
  {
    if Input(h, a) != Input(h, b) then Colliding(Input(h, a), Input(h, b))
    else if a.Tip? || b.Tip? then Spelled(Input(h, a))
    else
      assert Input(h, a)[..32] == TreeDigest(h, a.left) && Input(h, a)[32..] == TreeDigest(h, a.right);
      assert Input(h, b)[..32] == TreeDigest(h, b.left) && Input(h, b)[32..] == TreeDigest(h, b.right);
      if a.left != b.left then TreeEvidence(h, a.left, b.left) else TreeEvidence(h, a.right, b.right)
  }

  // ----- the tree the level loop builds

  function PairTrees(ts: seq<Tree>): (ps: seq<Tree>)
    ensures |ps| == (|ts| + 1) / 2
  {
    if |ts| <= 1 then ts else [Fork(ts[0], ts[1])] + PairTrees(ts[2..])
  }

  function Top(ts: seq<Tree>): Tree
    requires ts != []
    decreases |ts|
  {
    if |ts| == 1 then ts[0] else Top(PairTrees(ts))
  }

  function TreeDigests(h: Hash, ts: seq<Tree>): (ds: seq<Digest>)
    ensures |ds| == |ts|
  {
    seq(|ts|, i requires 0 <= i < |ts| => TreeDigest(h, ts[i]))
  }

  function Fringes(ts: seq<Tree>): seq<seq<Byte>> {
    if ts == [] then [] else Fringe(ts[0]) + Fringes(ts[1..])
  }

  lemma {:induction false} PairDigests(h: Hash, ts: seq<Tree>)
    ensures TreeDigests(h, PairTrees(ts)) == Parents(h, TreeDigests(h, ts))
  {
    hide Concat;
    if |ts| > 1 {
      PairDigests(h, ts[2..]);
      var ds := TreeDigests(h, ts);
      assert ds[2..] == TreeDigests(h, ts[2..]);
      assert TreeDigests(h, PairTrees(ts)) == [h(Concat(ds[0], ds[1]))] + TreeDigests(h, PairTrees(ts[2..]));
    }
  }

  lemma {:induction false} PairFringes(ts: seq<Tree>)
    ensures Fringes(PairTrees(ts)) == Fringes(ts)
  {
    if |ts| > 1 {
      PairFringes(ts[2..]);
      var ps := PairTrees(ts);
      assert ps[0] == Fork(ts[0], ts[1]) && ps[1..] == PairTrees(ts[2..]) && ts[1..][1..] == ts[2..];
      assert Fringes(ts) == Fringe(ts[0]) + (Fringe(ts[1]) + Fringes(ts[2..]));
    }
  }

  /** The top tree carries the root and, read from left to right, the same leaves. */
  lemma {:induction false} TopFacts(h: Hash, ts: seq<Tree>)
    requires ts != []
    ensures TreeDigest(h, Top(ts)) == Root(h, TreeDigests(h, ts)) && Fringe(Top(ts)) == Fringes(ts)
    decreases |ts|
  {
    hide Input, Fringe, PairTrees, Parents;
    if |ts| == 1 {
      assert Fringes(ts[1..]) == [];
    } else {
      TopFacts(h, PairTrees(ts));
      PairDigests(h, ts);
      PairFringes(ts);
    }
  }

  function Tips(leaves: seq<seq<Byte>>): (ts: seq<Tree>)
    ensures |ts| == |leaves|
  {
    seq(|leaves|, i requires 0 <= i < |leaves| => Tip(leaves[i]))
  }

  lemma {:induction false} TipsFringe(leaves: seq<seq<Byte>>)
    ensures Fringes(Tips(leaves)) == leaves
  {
    if leaves != [] {
      TipsFringe(leaves[1..]);
      assert Tips(leaves)[1..] == Tips(leaves[1..]);
      assert leaves == [leaves[0]] + leaves[1..];
    }
  }

  function TreeOf(leaves: seq<seq<Byte>>): Tree
    requires leaves != []
  {
    Top(Tips(leaves))
  }

  lemma TreeOfFacts(h: Hash, leaves: seq<seq<Byte>>)
    requires leaves != []
    ensures TreeDigest(h, TreeOf(leaves)) == Root(h, Digests(h, leaves)) && Fringe(TreeOf(leaves)) == leaves
  {
    hide Root, Top, Fringe;
    TopFacts(h, Tips(leaves));
    TipsFringe(leaves);
    assert TreeDigests(h, Tips(leaves)) == Digests(h, leaves);
  }

  lemma {:induction false} NarrowFringe(t: Tree)
    requires forall i :: 0 <= i < |Fringe(t)| ==> |Fringe(t)[i]| != 64
    ensures Narrow(t)
    decreases t
  {
    match t
    case Tip(bytes) => assert Fringe(t)[0] == bytes;
    case Fork(l, r) =>
      assert forall i :: 0 <= i < |Fringe(l)| ==> Fringe(t)[i] == Fringe(l)[i];
      assert forall i :: 0 <= i < |Fringe(r)| ==> Fringe(t)[|Fringe(l)| + i] == Fringe(r)[i];
      NarrowFringe(l);
      NarrowFringe(r);
  }

  // ----- triples

  /** What equal roots of different lists come to: a collision from the two trees, or a preimage of the zero root. */
  predicate RootsCollide(h: Hash, a: seq<Triple>, b: seq<Triple>) {
    if a == [] then b != [] && TreeDigest(h, TreeOf(Leaves(b))) == ZERO_ROOT
    else if b == [] then TreeDigest(h, TreeOf(Leaves(a))) == ZERO_ROOT
    else
      var s, t := TreeOf(Leaves(a)), TreeOf(Leaves(b));
      && s != t && TreeDigest(h, s) == TreeDigest(h, t) && Narrow(s) && Narrow(t)
      && Collision(h, TreeCollision(h, s, t))
  }

  /** What equal roots of lists with different leaves come to, in general. */
  predicate RootsDiverge(h: Hash, a: seq<Triple>, b: seq<Triple>) {
    if a == [] then b != [] && TreeDigest(h, TreeOf(Leaves(b))) == ZERO_ROOT
    else if b == [] then TreeDigest(h, TreeOf(Leaves(a))) == ZERO_ROOT
    else
      var s, t := TreeOf(Leaves(a)), TreeOf(Leaves(b));
      s != t && TreeDigest(h, s) == TreeDigest(h, t) && Explains(h, s, t, TreeEvidence(h, s, t))
  }

  /**
    Equal roots, whatever the triples and their counts: the leaves are equal, or the two trees yield a
    collision or a leaf that spells an inner node (or, against an empty list, a preimage of zero).
   */
  lemma EqualRootsExplained(h: Hash, a: seq<Triple>, b: seq<Triple>)
    requires TriplesRoot(h, a) == TriplesRoot(h, b)
    ensures Leaves(a) == Leaves(b) || RootsDiverge(h, a, b)
  {
    hide Root, Input, TreeOf, TreeEvidence, Fringe, Leaf, Explains;
    if a != [] { TreeOfFacts(h, Leaves(a)); }
    if b != [] { TreeOfFacts(h, Leaves(b)); }
  }

  /** A leaf of a triple has the length of an inner node's input exactly when its strings have 62 bytes. */
  predicate NarrowTriple(t: Triple) {
    |t.0| + |t.1| + |t.2| != 62
  }

  /**
    Equal roots over separable triples, none with a 64-byte leaf and whatever their counts: the triples are
    equal, or the two trees yield an explicit collision (or, against an empty list, a preimage of zero).
   */
  lemma RootBindsAnyCount(h: Hash, a: seq<Triple>, b: seq<Triple>)
    requires TriplesRoot(h, a) == TriplesRoot(h, b)
    requires forall i :: 0 <= i < |a| ==> Separable(a[i]) && NarrowTriple(a[i])
    requires forall i :: 0 <= i < |b| ==> Separable(b[i]) && NarrowTriple(b[i])
    ensures a == b || RootsCollide(h, a, b)
  {
    hide Root, Input, TreeOf, TreeCollision, Fringe, Narrow, Separable;
    if a != [] { TreeOfFacts(h, Leaves(a)); }
    if b != [] { TreeOfFacts(h, Leaves(b)); }
    if a != [] && b != [] {
      NarrowLeaves(a);
      NarrowLeaves(b);
      if TreeOf(Leaves(a)) == TreeOf(Leaves(b)) {
        SameLeaves(a, b);
      }
    }
  }

  lemma NarrowLeaves(a: seq<Triple>)
    requires a != [] && Fringe(TreeOf(Leaves(a))) == Leaves(a) && forall i :: 0 <= i < |a| ==> NarrowTriple(a[i])
    ensures Narrow(TreeOf(Leaves(a)))
  {
    hide Fringe, TreeOf, Narrow;
    forall i | 0 <= i < |a| ensures |Leaves(a)[i]| != 64 { assert NarrowTriple(a[i]); }
    NarrowFringe(TreeOf(Leaves(a)));
  }

  lemma SameLeaves(a: seq<Triple>, b: seq<Triple>)
    requires Leaves(a) == Leaves(b)
    requires forall i :: 0 <= i < |a| ==> Separable(a[i])
    requires forall i :: 0 <= i < |b| ==> Separable(b[i])
    ensures a == b
  {
    hide Separable, Leaf;
    forall i | 0 <= i < |a| ensures a[i] == b[i] {
      assert Leaves(a)[i] == Leaves(b)[i];
      LeafInjective(a[i], b[i]);
    }
  }
}
