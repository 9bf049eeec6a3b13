/** The Merkle root of a fact document, and what it binds. */
module NdaIntegrity {
  import opened Bytes
  import opened Decimal
  import opened Merkle
  import opened MerkleTree
  import opened NdaModel
  import opened NdaDocument

  /** The leaf triple of a readable fact: `"{subject}|{predicate}|{object}"` with the predicate in decimal. */
  function FactTriple(r: Readable): Triple {
    (r.0, Dec(r.1), r.2)
  }

  function FactTriples(rs: seq<Readable>): (ts: seq<Triple>)
    ensures |ts| == |rs|
  {
    seq(|rs|, i requires 0 <= i < |rs| => FactTriple(rs[i]))
  }

  function FactsRoot(h: Hash, rs: seq<Readable>): Digest {
    TriplesRoot(h, FactTriples(rs))
  }

  /** The root covers what a document reads as; a fact that does not resolve has no part in it. */
  function DocumentRoot(h: Hash, d: Document): Digest {
    FactsRoot(h, ReadableFacts(d.dict, d.facts))
  }

  /** `merkle_root`, as the source runs it. */
  method ComputeRoot(h: Hash, doc: NdaDocument) returns (root: Digest)
    ensures root == DocumentRoot(h, doc.Model())
  {
    hide Root, ReadableFacts;
    var readables := doc.Readables();
    root := MerkleRoot(h, Digests(h, Leaves(FactTriples(readables))));
  }

  lemma DecSeparable(n: nat)
    ensures BAR !in Dec(n)
  {
    hide Dec;
    DecDigits(n);
  }

  lemma FactTripleInjective(a: Readable, b: Readable)
    requires FactTriple(a) == FactTriple(b)
    ensures a == b
  {
    hide Dec;
    DecInjective(a.1, b.1);
  }

  /**
    Two documents with equally many readable facts and equal roots, whose subjects hold no separator, read
    the same, or their trees hold an explicit collision of the hash; predicates never hold a separator and objects may.
   */
  lemma RootBindsFacts(h: Hash, a: Document, b: Document)
    requires var rs, us := ReadableFacts(a.dict, a.facts), ReadableFacts(b.dict, b.facts);
             && |rs| == |us|
             && forall i :: 0 <= i < |rs| ==> BAR !in rs[i].0 && BAR !in us[i].0
    requires DocumentRoot(h, a) == DocumentRoot(h, b)
    ensures var rs, us := ReadableFacts(a.dict, a.facts), ReadableFacts(b.dict, b.facts);
            rs == us || TreesCollide(h, FactTriples(rs), FactTriples(us))
  {
    hide Dec, TriplesRoot, ReadableFacts, TreesCollide;
    var rs, us := ReadableFacts(a.dict, a.facts), ReadableFacts(b.dict, b.facts);
    var ts, vs := FactTriples(rs), FactTriples(us);
    forall i | 0 <= i < |ts| ensures Separable(ts[i]) && Separable(vs[i]) {
      DecSeparable(rs[i].1);
      DecSeparable(us[i].1);
    }
    RootBindsTriples(h, ts, vs);
    if ts == vs {
      forall i | 0 <= i < |rs| ensures rs[i] == us[i] {
        assert ts[i] == vs[i];
        FactTripleInjective(rs[i], us[i]);
      }
    }
  }

  /** Subjects without separators, and no leaf of exactly 64 bytes. */
  predicate PlainFacts(rs: seq<Readable>) {
    forall i :: 0 <= i < |rs| ==> BAR !in rs[i].0 && NarrowTriple(FactTriple(rs[i]))
  }

  lemma PlainTriples(rs: seq<Readable>)
    requires PlainFacts(rs)
    ensures forall i :: 0 <= i < |rs| ==> Separable(FactTriples(rs)[i]) && NarrowTriple(FactTriples(rs)[i])
  {
    hide Dec, NarrowTriple;
    forall i | 0 <= i < |rs| ensures Separable(FactTriples(rs)[i]) && NarrowTriple(FactTriples(rs)[i]) {
      assert FactTriples(rs)[i] == FactTriple(rs[i]);
      DecSeparable(rs[i].1);
    }
  }

  /** The same for any two counts, as long as no leaf is exactly 64 bytes long. */
  lemma RootBindsAnyFacts(h: Hash, a: Document, b: Document)
    requires PlainFacts(ReadableFacts(a.dict, a.facts)) && PlainFacts(ReadableFacts(b.dict, b.facts))
    requires DocumentRoot(h, a) == DocumentRoot(h, b)
    ensures var rs, us := ReadableFacts(a.dict, a.facts), ReadableFacts(b.dict, b.facts);
            rs == us || RootsCollide(h, FactTriples(rs), FactTriples(us))
  {
    hide Dec, TriplesRoot, ReadableFacts, RootsCollide, NarrowTriple, PlainFacts;
    var rs, us := ReadableFacts(a.dict, a.facts), ReadableFacts(b.dict, b.facts);
    var ts, vs := FactTriples(rs), FactTriples(us);
    PlainTriples(rs);
    PlainTriples(us);
    RootBindsAnyCount(h, ts, vs);
    if ts == vs {
      forall i | 0 <= i < |rs| ensures rs[i] == us[i] {
        assert ts[i] == vs[i];
        FactTripleInjective(rs[i], us[i]);
      }
    }
  }

  // ----- exactly which facts a leaf determines

  function FactLeaf(r: Readable): Str {
    Leaf(FactTriple(r))
  }

  /** A u16 as `format!` writes it. */
  predicate Canonical(s: Str) {
    AllDigits(s) && DigitsValue(s) < U16 && s == Dec(DigitsValue(s))
  }

  /** Bars at `i` and `j` enclose a predicate. */
  predicate Encloses(l: Str, i: nat, j: nat) {
    i < j < |l| && l[i] == BAR && l[j] == BAR && Canonical(l[i + 1..j])
  }

  /** The fact read off a leaf by taking those two bars for its separators. */
  function SplitAt(l: Str, i: nat, j: nat): Readable
    requires Encloses(l, i, j)
  {
    (l[..i], DigitsValue(l[i + 1..j]), l[j + 1..])
  }

  lemma SplitLeaf(l: Str, i: nat, j: nat)
    requires Encloses(l, i, j)
    ensures FactLeaf(SplitAt(l, i, j)) == l
  {
    hide Dec, DigitsValue;
    assert l == l[..i] + [BAR] + l[i + 1..j] + [BAR] + l[j + 1..];
  }

  function Second(r: Readable): nat {
    |r.0| + 1 + |Dec(r.1)|
  }

  lemma OwnSplit(r: Readable)
    ensures Encloses(FactLeaf(r), |r.0|, Second(r)) && SplitAt(FactLeaf(r), |r.0|, Second(r)) == r
  {
    hide Dec, DigitsValue, Leaf;
    LeafParts(FactTriple(r));
    DecDigits(r.1);
  }

  /** No other pair of bars encloses a predicate. */
  ghost predicate OnlySplit(r: Readable) {
    forall i, j :: Encloses(FactLeaf(r), i, j) ==> i == |r.0|
  }

  lemma NoBarBetween(l: Str, i: nat, j: nat)
    requires Encloses(l, i, j)
    ensures forall m :: i < m < j ==> l[m] != BAR
  {
    hide Dec, DigitsValue;
    forall m | i < m < j ensures l[m] != BAR { assert l[i + 1..j][m - i - 1] == l[m]; }
  }

  /** From one bar on, at most one other bar encloses a predicate with it. */
  lemma SecondBar(l: Str, i: nat, j: nat, k: nat)
    requires Encloses(l, i, j) && Encloses(l, i, k)
    ensures j == k
  {
    hide Canonical;
    NoBarBetween(l, i, j);
    NoBarBetween(l, i, k);
  }

  predicate ValidFact(r: Readable) {
    ValidUtf8(r.0) && ValidUtf8(r.2)
  }

  lemma {:induction false} DigitsValid(s: Str)
    requires AllDigits(s)
    ensures ValidUtf8(s)
  {
    if s != [] {
      assert s[0] < 0x80;
      DigitsValid(s[1..]);
    }
  }

  /** Another reading of the leaf of a fact of Rust strings is a fact of Rust strings. */
  lemma SplitValid(r: Readable, i: nat, j: nat)
    requires ValidFact(r) && Encloses(FactLeaf(r), i, j)
    ensures ValidFact(SplitAt(FactLeaf(r), i, j))
  {
    hide ValidUtf8, Dec, DigitsValue, Canonical;
    var l := FactLeaf(r);
    DecDigits(r.1);
    DigitsValid(Dec(r.1));
    assert l == r.0 + [BAR] + (Dec(r.1) + [BAR] + r.2);
    Utf8Split(Dec(r.1), BAR, r.2);
    Utf8Split(r.0, BAR, Dec(r.1) + [BAR] + r.2);
    assert l == l[..i] + [BAR] + l[i + 1..];
    Utf8Split(l[..i], BAR, l[i + 1..]);
    assert l == l[..j] + [BAR] + l[j + 1..];
    Utf8Split(l[..j], BAR, l[j + 1..]);
  }

  lemma LeafDetermines(r: Readable, u: Readable)
    requires OnlySplit(r) && FactLeaf(u) == FactLeaf(r)
    ensures u == r
  {
    hide Dec, Encloses, FactLeaf;
    OwnSplit(r);
    OwnSplit(u);
    assert |u.0| == |r.0|;
    SecondBar(FactLeaf(r), |r.0|, Second(r), Second(u));
  }

  /**
    A leaf determines its fact among all facts exactly when no other pair of bars in it encloses a u16 in
    decimal, and the same holds among the facts of valid UTF-8 strings.
   */
  lemma LeafDeterminesFactIff(r: Readable)
    ensures (forall u: Readable :: FactLeaf(u) == FactLeaf(r) ==> u == r) <==> OnlySplit(r)
    ensures ValidFact(r) ==>
      ((forall u: Readable :: FactLeaf(u) == FactLeaf(r) && ValidFact(u) ==> u == r) <==> OnlySplit(r))
  {
    hide Encloses, FactLeaf, ValidFact;
    if OnlySplit(r) {
      forall u: Readable | FactLeaf(u) == FactLeaf(r) ensures u == r { LeafDetermines(r, u); }
    } else {
      var u := OtherReading(r);
      assert FactLeaf(u) == FactLeaf(r) && u != r;
    }
  }

  /** A fact with another reading, and that reading. */
  lemma OtherReading(r: Readable) returns (u: Readable)
    requires !OnlySplit(r)
    ensures u != r && FactLeaf(u) == FactLeaf(r) && (ValidFact(r) ==> ValidFact(u))
  {
    hide FactLeaf, ValidFact, Canonical;
    var i, j :| Encloses(FactLeaf(r), i, j) && i != |r.0|;
    u := SplitAt(FactLeaf(r), i, j);
    SplitLeaf(FactLeaf(r), i, j);
    if ValidFact(r) { SplitValid(r, i, j); }
  }

  // ----- what a root binds of one document, whatever the other

  ghost predicate AllOnlySplit(rs: seq<Readable>) {
    forall i :: 0 <= i < |rs| ==> OnlySplit(rs[i])
  }

  lemma LeavesDetermine(rs: seq<Readable>, us: seq<Readable>)
    requires AllOnlySplit(rs) && Leaves(FactTriples(rs)) == Leaves(FactTriples(us))
    ensures rs == us
  {
    hide OnlySplit, Leaf, FactTriple;
    var ls, ms := Leaves(FactTriples(rs)), Leaves(FactTriples(us));
    assert |ls| == |rs| && |ms| == |us|;
    forall i | 0 <= i < |rs| ensures rs[i] == us[i] {
      assert ls[i] == ms[i] && ls[i] == FactLeaf(rs[i]) && ms[i] == FactLeaf(us[i]);
      LeafDetermines(rs[i], us[i]);
    }
  }

  /**
    A document all of whose facts have one reading is bound by its root: any other with equally many
    readable facts and the same root reads the same, or the trees hold an explicit collision.
   */
  lemma RootBindsDocument(h: Hash, a: Document, b: Document)
    requires var rs, us := ReadableFacts(a.dict, a.facts), ReadableFacts(b.dict, b.facts); |rs| == |us| && AllOnlySplit(rs)
    requires DocumentRoot(h, a) == DocumentRoot(h, b)
    ensures var rs, us := ReadableFacts(a.dict, a.facts), ReadableFacts(b.dict, b.facts);
            rs == us || TreesCollide(h, FactTriples(rs), FactTriples(us))
  {
    hide ReadableFacts;
    FactListBound(h, ReadableFacts(a.dict, a.facts), ReadableFacts(b.dict, b.facts));
  }

  lemma FactListBound(h: Hash, rs: seq<Readable>, us: seq<Readable>)
    requires |rs| == |us| && AllOnlySplit(rs) && FactsRoot(h, rs) == FactsRoot(h, us)
    ensures rs == us || TreesCollide(h, FactTriples(rs), FactTriples(us))
  {
    hide Root, LeafCollision, Leaf, OnlySplit, FactTriple;
    if Leaves(FactTriples(rs)) == Leaves(FactTriples(us)) { LeavesDetermine(rs, us); }
  }

  /** That condition is exact, under every hash. */
  lemma RootBindsFactsIff(h: Hash, rs: seq<Readable>)
    ensures (forall us: seq<Readable> :: FactsRoot(h, us) == FactsRoot(h, rs) && |us| == |rs| ==>
               us == rs || TreesCollide(h, FactTriples(rs), FactTriples(us)))
            <==> AllOnlySplit(rs)
  {
    hide FactsRoot, TreesCollide, OnlySplit, FactTriples, FactLeaf;
    if AllOnlySplit(rs) {
      forall us: seq<Readable> | FactsRoot(h, us) == FactsRoot(h, rs) && |us| == |rs|
        ensures us == rs || TreesCollide(h, FactTriples(rs), FactTriples(us))
      {
        FactListBound(h, rs, us);
      }
    } else {
      var i :| 0 <= i < |rs| && !OnlySplit(rs[i]);
      var us := Reread(rs, i);
      SameRoot(h, rs, us);
      assert !TreesCollide(h, FactTriples(rs), FactTriples(us)) by { SameLeavesNoCollision(h, rs, us); }
    }
  }

  /** A list of facts with one of them read otherwise: different facts, the same leaves. */
  lemma Reread(rs: seq<Readable>, i: nat) returns (us: seq<Readable>)
    requires i < |rs| && !OnlySplit(rs[i])
    ensures |us| == |rs| && us != rs && Leaves(FactTriples(us)) == Leaves(FactTriples(rs))
  {
    hide OnlySplit, Leaf, FactTriple;
    var u := OtherReading(rs[i]);
    us := rs[i := u];
    assert us[i] != rs[i];
    var ls, ms := Leaves(FactTriples(us)), Leaves(FactTriples(rs));
    forall k | 0 <= k < |rs| ensures ls[k] == ms[k] {
      assert ls[k] == FactLeaf(us[k]) && ms[k] == FactLeaf(rs[k]);
    }
  }

  lemma SameRoot(h: Hash, rs: seq<Readable>, us: seq<Readable>)
    requires Leaves(FactTriples(us)) == Leaves(FactTriples(rs))
    ensures FactsRoot(h, us) == FactsRoot(h, rs)
  {
    hide Root, Leaf, FactTriple;
    assert |FactTriples(us)| == |Leaves(FactTriples(us))| == |FactTriples(rs)|;
  }

  lemma SameLeavesNoCollision(h: Hash, rs: seq<Readable>, us: seq<Readable>)
    requires Leaves(FactTriples(us)) == Leaves(FactTriples(rs))
    ensures !TreesCollide(h, FactTriples(rs), FactTriples(us))
  {
    hide Root, Leaf, FactTriple, LeafCollision;
  }

  /** The same binding for any two counts and any leaves. */
  lemma RootBindsDocumentAnyCount(h: Hash, a: Document, b: Document)
    requires AllOnlySplit(ReadableFacts(a.dict, a.facts)) && DocumentRoot(h, a) == DocumentRoot(h, b)
    ensures var rs, us := ReadableFacts(a.dict, a.facts), ReadableFacts(b.dict, b.facts);
            rs == us || RootsDiverge(h, FactTriples(rs), FactTriples(us))
  {
    hide ReadableFacts, TriplesRoot, RootsDiverge, Leaf, OnlySplit, AllOnlySplit;
    var rs, us := ReadableFacts(a.dict, a.facts), ReadableFacts(b.dict, b.facts);
    EqualRootsExplained(h, FactTriples(rs), FactTriples(us));
    if Leaves(FactTriples(rs)) == Leaves(FactTriples(us)) { LeavesDetermine(rs, us); }
  }

  // ----- changes the root does not show

  /** A document that reads as any given facts. */
  lemma {:induction false} DocumentReading(rs: seq<Readable>) returns (d: Document)
    requires 2 * |rs| <= U32
    ensures ReadableFacts(d.dict, d.facts) == rs && NoDangling(d) && |d.dict.strings| == 2 * |rs|
  {
    if rs == [] {
      d := Document(EMPTY_DICT, []);
    } else {
      hide ReadableFacts;
      var init, r := rs[..|rs| - 1], rs[|rs| - 1];
      var e := DocumentReading(init);
      var n := |e.dict.strings|;
      var f := Fact(n, r.1, StrId(n + 1));
      d := Document(Dict(e.dict.strings + [r.0, r.2], map[]), e.facts + [f]);
      ReadableGrowsIff(e.dict, d.dict, e.facts);
      ReadableAppend(d.dict, e.facts, [f]);
      OneReads(d.dict, f);
      assert Shown(d.dict, f) == [r];
      assert rs == init + [r];
    }
  }

  /** Every document with a fact that reads two ways has another with different facts and its root, under any hash. */
  lemma AmbiguousFactForged(a: Document, i: nat) returns (b: Document)
    requires var rs := ReadableFacts(a.dict, a.facts); i < |rs| && !OnlySplit(rs[i]) && 2 * |rs| <= U32
    ensures var rs, us := ReadableFacts(a.dict, a.facts), ReadableFacts(b.dict, b.facts); |us| == |rs| && us != rs
    ensures forall h: Hash :: DocumentRoot(h, b) == DocumentRoot(h, a)
  {
    hide ReadableFacts, OnlySplit, FactsRoot;
    var rs := ReadableFacts(a.dict, a.facts);
    var us := Reread(rs, i);
    b := DocumentReading(us);
    forall h: Hash ensures DocumentRoot(h, b) == DocumentRoot(h, a) { SameRoot(h, rs, us); }
  }

  /** One such pair: `("a|5", 7, "x")` and `("a", 5, "7|x")`. */
  lemma BarsForgeRoot(h: Hash)
    ensures var a := Document(Dict([[97, BAR, 53], [120]], map[]), [Fact(0, 7, StrId(1))]);
            var b := Document(Dict([[97], [55, BAR, 120]], map[]), [Fact(0, 5, StrId(1))]);
            && ReadableFacts(a.dict, a.facts) == [([97, BAR, 53], 7, [120])]
            && ReadableFacts(b.dict, b.facts) == [([97], 5, [55, BAR, 120])]
            && DocumentRoot(h, a) == DocumentRoot(h, b)
  {
    hide FactsRoot, ReadableFacts;
    var a := Document(Dict([[97, BAR, 53], [120]], map[]), [Fact(0, 7, StrId(1))]);
    var b := Document(Dict([[97], [55, BAR, 120]], map[]), [Fact(0, 5, StrId(1))]);
    var r, u: Readable := ([97, BAR, 53], 7, [120]), ([97], 5, [55, BAR, 120]);
    OneReads(a.dict, a.facts[0]);
    OneReads(b.dict, b.facts[0]);
    assert FactLeaf(r) == [97, BAR, 53, BAR, 55, BAR, 120] && FactLeaf(u) == [97, BAR, 53, BAR, 55, BAR, 120];
    assert Leaves(FactTriples([r])) == [FactLeaf(r)] && Leaves(FactTriples([u])) == [FactLeaf(u)];
    SameRoot(h, [r], [u]);
  }

  /** A fact that does not resolve can change without the root noticing. */
  lemma DanglingFactUnseen(h: Hash)
    ensures var a, b := Document(EMPTY_DICT, [Fact(0, 7, Int(1))]), Document(EMPTY_DICT, [Fact(0, 7, Int(2))]);
            a.facts != b.facts && DocumentRoot(h, a) == DocumentRoot(h, b)
  {
    hide FactsRoot, ReadableFacts;
    OneReads(EMPTY_DICT, Fact(0, 7, Int(1)));
    OneReads(EMPTY_DICT, Fact(0, 7, Int(2)));
  }
}
