/**
  The pairwise Merkle tree over fact leaves. The hash is a parameter about which nothing is assumed:
  where a result would need injectivity, an explicit collision is computed instead.
 */
module Merkle {
  import opened Bytes

  function Zeros(n: nat): (z: seq<Byte>)
    ensures |z| == n
  {
    seq(n, _ => 0)
  }

  type Digest = d: seq<Byte> | |d| == 32 witness Zeros(32)
  type Hash = seq<Byte> -> Digest
  type Triple = (Str, Str, Str)

  const ZERO_ROOT: Digest := Zeros(32)

  /** The 64 bytes hashed for a pair of nodes. */
  function Concat(left: Digest, right: Digest): (bytes: seq<Byte>)
    ensures |bytes| == 64 && bytes[..32] == left && bytes[32..] == right
  {
    var l: seq<Byte>, r: seq<Byte> := left, right;
    l + r
  }

  /** One level up: pairs are hashed together, an odd last node is promoted unchanged. */
  function Parents(h: Hash, level: seq<Digest>): (parents: seq<Digest>)
    ensures |parents| == (|level| + 1) / 2
  {
    if |level| <= 1 then level else [h(Concat(level[0], level[1]))] + Parents(h, level[2..])
  }

  function Root(h: Hash, level: seq<Digest>): Digest
    requires level != []
    decreases |level|
  {
    if |level| == 1 then level[0] else Root(h, Parents(h, level))
  }

  lemma {:induction false} ParentsAppend(h: Hash, a: seq<Digest>, b: seq<Digest>)
    requires |a| % 2 == 0
    ensures Parents(h, a + b) == Parents(h, a) + Parents(h, b)
  {
    if a == [] {
      assert a + b == b;
    } else {
      ParentsAppend(h, a[2..], b);
      assert (a + b)[2..] == a[2..] + b;
    }
  }

  /** The loop of `merkle_root`, given the leaf digests. */
  method MerkleRoot(h: Hash, leaves: seq<Digest>) returns (root: Digest)
    ensures root == if leaves == [] then ZERO_ROOT else Root(h, leaves)
  {
    if leaves == [] {
      return ZERO_ROOT;
    }
    var level := leaves;
    while |level| > 1
      invariant level != [] && Root(h, level) == Root(h, leaves)
      decreases |level|
    {
      level := NextLevel(h, level);
    }
    root := level[0];
  }

  method NextLevel(h: Hash, level: seq<Digest>) returns (parents: seq<Digest>)
    ensures parents == Parents(h, level)
  {
    hide Parents;
    parents := [];
    var i := 0;
    LevelStep(h, level, 0);
    while i < |level|
      invariant i % 2 == 0 && i <= |level| + 1
      invariant parents == Parents(h, level[..Min(i, |level|)])
    {
      LevelStep(h, level, i);
      if i + 1 < |level| {
        parents := parents + [h(Concat(level[i], level[i + 1]))];
      } else {
        parents := parents + [level[i]];
      }
      i := i + 2;
    }
    assert level[..|level|] == level;
  }

  function Min(a: nat, b: nat): nat {
    if a <= b then a else b
  }

  lemma LevelStep(h: Hash, level: seq<Digest>, i: nat)
    requires i % 2 == 0
    ensures i == 0 ==> Parents(h, level[..0]) == []
    ensures i + 1 < |level| ==>
      Parents(h, level[..i + 2]) == Parents(h, level[..i]) + [h(Concat(level[i], level[i + 1]))]
    ensures i + 1 == |level| ==> Parents(h, level[..|level|]) == Parents(h, level[..i]) + [level[i]]
  {
    if i + 1 < |level| {
      ParentsOfPair(h, level[i], level[i + 1]);
      ParentsAppend(h, level[..i], [level[i], level[i + 1]]);
      assert level[..i + 2] == level[..i] + [level[i], level[i + 1]];
    } else if i + 1 == |level| {
      ParentsAppend(h, level[..i], [level[i]]);
      assert level[..|level|] == level[..i] + [level[i]];
    }
  }

  lemma ParentsOfPair(h: Hash, a: Digest, b: Digest)
    ensures Parents(h, [a, b]) == [h(Concat(a, b))]
  {
    assert [a, b][2..] == [];
  }

  // ----- equal roots: equal leaves or a collision

  predicate Collision(h: Hash, pair: (seq<Byte>, seq<Byte>)) {
    pair.0 != pair.1 && h(pair.0) == h(pair.1)
  }

  /** Two different levels of one length with the same parents contain a colliding pair. */
  function ParentCollision(h: Hash, a: seq<Digest>, b: seq<Digest>): (pair: (seq<Byte>, seq<Byte>))
    requires |a| == |b| && a != b && Parents(h, a) == Parents(h, b)
    ensures Collision(h, pair)
  {
    if a[0] != b[0] || a[1] != b[1] then
      assert Parents(h, a)[0] == h(Concat(a[0], a[1])) && Parents(h, b)[0] == h(Concat(b[0], b[1]));
      (Concat(a[0], a[1]), Concat(b[0], b[1]))
    else
      assert a == a[..2] + a[2..] && b == b[..2] + b[2..];
      assert Parents(h, a)[1..] == Parents(h, a[2..]) && Parents(h, b)[1..] == Parents(h, b[2..]);
      ParentCollision(h, a[2..], b[2..])
  }

  /** Two different levels of one length with the same root contain a colliding pair. */
  function LevelCollision(h: Hash, a: seq<Digest>, b: seq<Digest>): (pair: (seq<Byte>, seq<Byte>))
    requires |a| == |b| && a != b && a != [] && Root(h, a) == Root(h, b)
    ensures Collision(h, pair)
    decreases |a|
  {
    if Parents(h, a) == Parents(h, b) then ParentCollision(h, a, b)
    else LevelCollision(h, Parents(h, a), Parents(h, b))
  }

  function Digests(h: Hash, leaves: seq<seq<Byte>>): (ds: seq<Digest>)
    ensures |ds| == |leaves|
  {
    seq(|leaves|, i requires 0 <= i < |leaves| => h(leaves[i]))
  }

  function FirstDifference(a: seq<seq<Byte>>, b: seq<seq<Byte>>): (i: nat)
    requires |a| == |b| && a != b
    ensures i < |a| && a[i] != b[i]
  {
    if a[0] != b[0] then 0
    else
      assert a == [a[0]] + a[1..] && b == [b[0]] + b[1..];
      1 + FirstDifference(a[1..], b[1..])
  }

  /** Two different leaf lists of one length under the same root give an explicit collision. */
  function LeafCollision(h: Hash, a: seq<seq<Byte>>, b: seq<seq<Byte>>): (pair: (seq<Byte>, seq<Byte>))
    requires |a| == |b| && a != b && Root(h, Digests(h, a)) == Root(h, Digests(h, b))
    ensures Collision(h, pair)
  {
    if Digests(h, a) != Digests(h, b) then LevelCollision(h, Digests(h, a), Digests(h, b))
    else
      var i := FirstDifference(a, b);
      assert Digests(h, a)[i] == Digests(h, b)[i];
      (a[i], b[i])
  }

  // ----- leaves and the triples they stand for

  const BAR: Byte := 124

  /** `"{s}|{p}|{o}"`. */
  function Leaf(t: Triple): seq<Byte> {
    t.0 + [BAR] + t.1 + [BAR] + t.2
  }

  function Leaves(ts: seq<Triple>): (leaves: seq<seq<Byte>>)
    ensures |leaves| == |ts|
  {
    seq(|ts|, i requires 0 <= i < |ts| => Leaf(ts[i]))
  }

  predicate Separable(t: Triple) {
    BAR !in t.0 && BAR !in t.1
  }

  /** Where the two separators of a leaf stand. */
  lemma LeafParts(t: Triple)
    ensures var l, i, j := Leaf(t), |t.0|, |t.0| + 1 + |t.1|;
            && |l| > j && l[i] == BAR && l[j] == BAR
            && l[..i] == t.0 && l[i + 1..j] == t.1 && l[j + 1..] == t.2
  {
  }

  /** A leaf determines its triple among those whose subject and predicate hold no separator. */
  lemma LeafInjective(t: Triple, u: Triple)
    requires Separable(t) && Separable(u) && Leaf(t) == Leaf(u)
    ensures t == u
  {
    hide Leaf;
    LeafParts(t);
    LeafParts(u);
    assert |t.0| == |u.0|;
    assert |t.1| == |u.1|;
  }

  predicate ValidTriple(t: Triple) {
    ValidUtf8(t.0) && ValidUtf8(t.1) && ValidUtf8(t.2)
  }

  /**
    Among all triples a leaf is unambiguous exactly when none of its three strings holds a separator, and
    the same holds among the triples of valid UTF-8 strings.
   */
  lemma LeafUnambiguousIff(t: Triple)
    ensures (forall u: Triple :: Leaf(u) == Leaf(t) ==> u == t) <==> BAR !in t.0 && BAR !in t.1 && BAR !in t.2
    ensures ValidTriple(t) ==>
      ((forall u: Triple :: Leaf(u) == Leaf(t) && ValidTriple(u) ==> u == t) <==> BAR !in t.0 && BAR !in t.1 && BAR !in t.2)
  {
    hide ValidTriple;
    if BAR in t.0 || BAR in t.1 || BAR in t.2 {
      var u := Twin(t);
      assert Leaf(u) == Leaf(t) && u != t;
      if ValidTriple(t) { TwinValid(t); }
    } else {
      forall u: Triple | Leaf(u) == Leaf(t)
        ensures u == t
      {
        NoOtherBars(t, u);
      }
    }
  }

  /** The other reading of a triple of Rust strings is one of Rust strings too. */
  lemma TwinValid(t: Triple)
    requires ValidTriple(t) && (BAR in t.0 || BAR in t.1 || BAR in t.2)
    ensures ValidTriple(Twin(t))
  {
    hide ValidUtf8;
    if BAR in t.0 {
      BarParts(t.0);
      Utf8Split(t.1, BAR, t.2);
    } else if BAR in t.1 {
      BarParts(t.1);
      var i := BarIndex(t.1);
      Utf8Split(t.1[i + 1..], BAR, t.2);
    } else {
      BarParts(t.2);
      Utf8Split(t.0, BAR, t.1);
    }
  }

  lemma BarParts(s: Str)
    requires BAR in s && ValidUtf8(s)
    ensures var i := BarIndex(s); ValidUtf8(s[..i]) && ValidUtf8(s[i + 1..])
  {
    hide ValidUtf8;
    var i := BarIndex(s);
    assert s == s[..i] + [BAR] + s[i + 1..];
    Utf8Split(s[..i], BAR, s[i + 1..]);
  }

  lemma NoOtherBars(t: Triple, u: Triple)
    requires BAR !in t.0 && BAR !in t.1 && BAR !in t.2 && Leaf(u) == Leaf(t)
    ensures u == t
  {
    hide Leaf;
    LeafParts(t);
    LeafParts(u);
    assert |u.0| == |t.0|;
    assert |u.1| == |t.1|;
  }

  /** Another triple with the same leaf, obtained by reading a different bar as a separator. */
  function Twin(t: Triple): (u: Triple)
    requires BAR in t.0 || BAR in t.1 || BAR in t.2
    ensures Leaf(u) == Leaf(t) && u != t
  {
    if BAR in t.0 then
      var i := BarIndex(t.0);
      assert t.0 == t.0[..i] + [BAR] + t.0[i + 1..];
      (t.0[..i], t.0[i + 1..], t.1 + [BAR] + t.2)
    else if BAR in t.1 then
      var i := BarIndex(t.1);
      assert t.1 == t.1[..i] + [BAR] + t.1[i + 1..];
      (t.0, t.1[..i], t.1[i + 1..] + [BAR] + t.2)
    else
      var i := BarIndex(t.2);
      assert t.2 == t.2[..i] + [BAR] + t.2[i + 1..];
      (t.0 + [BAR] + t.1, t.2[..i], t.2[i + 1..])
  }

  function BarIndex(s: Str): (i: nat)
    requires BAR in s
    ensures i < |s| && s[i] == BAR
  {
    if s[0] == BAR then 0 else 1 + BarIndex(s[1..])
  }

  function TriplesRoot(h: Hash, ts: seq<Triple>): Digest {
    if ts == [] then ZERO_ROOT else Root(h, Digests(h, Leaves(ts)))
  }

  /** The two lists of triples lead to a collision: the one that `LeafCollision` extracts from their trees. */
  predicate TreesCollide(h: Hash, a: seq<Triple>, b: seq<Triple>) {
    && |a| == |b| && Leaves(a) != Leaves(b)
    && Root(h, Digests(h, Leaves(a))) == Root(h, Digests(h, Leaves(b)))
    && Collision(h, LeafCollision(h, Leaves(a), Leaves(b)))
  }

  /** Equal roots over equally many separable triples: the triples are equal or the hash has collided. */
  lemma RootBindsTriples(h: Hash, a: seq<Triple>, b: seq<Triple>)
    requires |a| == |b| && TriplesRoot(h, a) == TriplesRoot(h, b)
    requires forall i :: 0 <= i < |a| ==> Separable(a[i]) && Separable(b[i])
    ensures a == b || TreesCollide(h, a, b)
  {
    if Leaves(a) == Leaves(b) {
      forall i | 0 <= i < |a|
        ensures a[i] == b[i]
      {
        assert Leaves(a)[i] == Leaves(b)[i];
        LeafInjective(a[i], b[i]);
      }
    }
  }

  /** Without equal counts: a triple whose leaf spells out two digests has the root of the two, under any hash. */
  lemma CountMatters(h: Hash, t: Triple, u: Triple, v: Triple)
    requires Leaf(v) == Concat(h(Leaf(t)), h(Leaf(u)))
    ensures TriplesRoot(h, [t, u]) == TriplesRoot(h, [v])
  {
    hide Leaf, Concat;
    assert Digests(h, Leaves([t, u])) == [h(Leaf(t)), h(Leaf(u))];
    assert Digests(h, Leaves([v])) == [h(Leaf(v))];
    ParentsOfPair(h, h(Leaf(t)), h(Leaf(u)));
  }

  // ----- leaves and small trees written out

  /** A leaf is the three strings with vertical bars (byte 124) between them. */
  lemma LeafIs(t: Triple)
    ensures Leaf(t) == t.0 + [124] + t.1 + [124] + t.2
  {
  }

  /** The roots of up to five triples: pairs from the left, an odd last node carried up unchanged. */
  lemma SmallRoots(h: Hash, t: seq<Triple>)
    requires |t| == 5
    ensures var a, b, c, d, e := h(Leaf(t[0])), h(Leaf(t[1])), h(Leaf(t[2])), h(Leaf(t[3])), h(Leaf(t[4]));
            && (forall i :: 0 <= i < 32 ==> TriplesRoot(h, [])[i] == 0)
            && TriplesRoot(h, [t[0]]) == a
            && TriplesRoot(h, t[..3]) == h(Concat(h(Concat(a, b)), c))
            && TriplesRoot(h, t) == h(Concat(h(Concat(h(Concat(a, b)), h(Concat(c, d)))), e))
  {
    hide Leaf, Concat;
    var a, b, c, d, e := h(Leaf(t[0])), h(Leaf(t[1])), h(Leaf(t[2])), h(Leaf(t[3])), h(Leaf(t[4]));
    assert Digests(h, Leaves([t[0]])) == [a];
    assert Digests(h, Leaves(t[..3])) == [a, b, c];
    assert Digests(h, Leaves(t)) == [a, b, c, d, e];
    ThreeParents(h, a, b, c);
    ThreeParents(h, h(Concat(a, b)), h(Concat(c, d)), e);
    assert [a, b, c, d, e][2..] == [c, d, e];
    ThreeParents(h, c, d, e);
    TwoRoot(h, h(Concat(a, b)), c);
    assert Root(h, [a, b, c]) == Root(h, [h(Concat(a, b)), c]);
    var ab, cd := h(Concat(a, b)), h(Concat(c, d));
    TwoRoot(h, h(Concat(ab, cd)), e);
    assert Parents(h, [a, b, c, d, e]) == [ab] + Parents(h, [c, d, e]) == [ab, cd, e];
    assert Root(h, [a, b, c, d, e]) == Root(h, [ab, cd, e]) == Root(h, [h(Concat(ab, cd)), e]);
  }

  lemma TwoRoot(h: Hash, a: Digest, b: Digest)
    ensures Root(h, [a, b]) == h(Concat(a, b))
  {
    ParentsOfPair(h, a, b);
  }

  lemma ThreeParents(h: Hash, a: Digest, b: Digest, c: Digest)
    ensures Parents(h, [a, b, c]) == [h(Concat(a, b)), c]
  {
    assert [a, b, c][2..] == [c];
  }
}
