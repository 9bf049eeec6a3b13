/** The loops of `diff`: signed counts, order-preserving extraction, and pairing through a key index. */
module DiffLoop {
  import opened Bytes
  import opened NdaModel
  import opened NdaDocument
  import opened Diff

  function CountOf(counts: map<Readable, int>, f: Readable): int {
    if f in counts then counts[f] else 0
  }

  /** `counts` holds, for every fact, how many more times `plus` has it than `minus`. */
  ghost predicate Tallies(counts: map<Readable, int>, plus: multiset<Readable>, minus: multiset<Readable>) {
    forall f :: CountOf(counts, f) + minus[f] == plus[f]
  }

  method Tally(before: seq<Readable>, after: seq<Readable>) returns (counts: map<Readable, int>)
    ensures Tallies(counts, multiset(after), multiset(before))
  {
    counts := map[];
    for i := 0 to |before|
      invariant Tallies(counts, multiset{}, multiset(before[..i]))
    {
      assert before[..i + 1] == before[..i] + [before[i]];
      counts := counts[before[i] := CountOf(counts, before[i]) - 1];
    }
    assert before[..|before|] == before;
    for i := 0 to |after|
      invariant Tallies(counts, multiset(after[..i]), multiset(before))
    {
      assert after[..i + 1] == after[..i] + [after[i]];
      counts := counts[after[i] := CountOf(counts, after[i]) + 1];
    }
    assert after[..|after|] == after;
  }

  /** The entries of `counts` of the given sign, as a bag. */
  ghost predicate Quota(counts: map<Readable, int>, sign: int, quota: multiset<Readable>) {
    forall f :: quota[f] == if sign * CountOf(counts, f) > 0 then sign * CountOf(counts, f) else 0
  }

  lemma TallyQuotas(counts: map<Readable, int>, plus: multiset<Readable>, minus: multiset<Readable>)
    requires Tallies(counts, plus, minus)
    ensures Quota(counts, 1, plus - minus) && Quota(counts, -1, minus - plus)
  {
    forall f
      ensures (plus - minus)[f] == if CountOf(counts, f) > 0 then CountOf(counts, f) else 0
      ensures (minus - plus)[f] == if -CountOf(counts, f) > 0 then -CountOf(counts, f) else 0
    {
      assert CountOf(counts, f) + minus[f] == plus[f];
    }
  }

  /** Walk `xs` and keep what the counts of one sign allow, moving each used count one step towards zero. */
  method Extract(xs: seq<Readable>, start: map<Readable, int>, sign: int, ghost quota: multiset<Readable>,
                 ghost other: multiset<Readable>)
    returns (kept: seq<Readable>, counts: map<Readable, int>, ghost left: multiset<Readable>)
    requires sign == 1 || sign == -1
    requires Quota(start, sign, quota) && Quota(start, -sign, other)
    ensures kept == Take(xs, quota) && Quota(counts, sign, left) && Quota(counts, -sign, other)
  {
    hide Take, Quota;
    kept, counts, left := [], start, quota;
    assert xs[0..] == xs && [] + Take(xs, quota) == Take(xs, quota);
    for i := 0 to |xs|
      invariant Take(xs, quota) == kept + Take(xs[i..], left)
      invariant Quota(counts, sign, left) && Quota(counts, -sign, other)
    {
      TakeStep(xs, i, left);
      QuotaMember(counts, sign, left, xs[i]);
      if sign * CountOf(counts, xs[i]) > 0 {
        QuotaStep(counts, sign, left, other, xs[i]);
        assert kept + ([xs[i]] + Take(xs[i + 1..], left - multiset{xs[i]}))
            == kept + [xs[i]] + Take(xs[i + 1..], left - multiset{xs[i]});
        kept := kept + [xs[i]];
        counts := counts[xs[i] := CountOf(counts, xs[i]) - sign];
        left := left - multiset{xs[i]};
      }
    }
    assert xs[|xs|..] == [];
    TakeNone(left);
  }

  lemma TakeNone(q: multiset<Readable>)
    ensures Take([], q) == []
  {
  }

  lemma TakeStep(xs: seq<Readable>, i: nat, q: multiset<Readable>)
    requires i < |xs|
    ensures Take(xs[i..], q)
         == if xs[i] in q then [xs[i]] + Take(xs[i + 1..], q - multiset{xs[i]}) else Take(xs[i + 1..], q)
  {
    assert xs[i..][1..] == xs[i + 1..];
  }

  lemma QuotaMember(counts: map<Readable, int>, sign: int, q: multiset<Readable>, f: Readable)
    requires Quota(counts, sign, q)
    ensures f in q <==> sign * CountOf(counts, f) > 0
  {
  }

  lemma QuotaStep(counts: map<Readable, int>, sign: int, q: multiset<Readable>, other: multiset<Readable>, f: Readable)
    requires sign == 1 || sign == -1
    requires Quota(counts, sign, q) && Quota(counts, -sign, other) && sign * CountOf(counts, f) > 0
    ensures var next := counts[f := CountOf(counts, f) - sign];
            Quota(next, sign, q - multiset{f}) && Quota(next, -sign, other)
  {
    if sign == 1 {
      var next := counts[f := CountOf(counts, f) - 1];
      assert forall g :: CountOf(next, g) == if g == f then CountOf(counts, f) - 1 else CountOf(counts, g);
    } else {
      var next := counts[f := CountOf(counts, f) + 1];
      assert forall g :: CountOf(next, g) == if g == f then CountOf(counts, f) + 1 else CountOf(counts, g);
    }
  }

  // ----- pairing through an index of positions

  /** The positions below `n` whose fact has key `k`, ascending. */
  function Positions(a: seq<Readable>, k: Key, n: nat): seq<nat>
    requires n <= |a|
  {
    if n == 0 then [] else Positions(a, k, n - 1) + (if KeyOf(a[n - 1]) == k then [n - 1] else [])
  }

  lemma {:induction false} PositionsAscend(a: seq<Readable>, k: Key, n: nat)
    requires n <= |a|
    ensures forall p :: p in Positions(a, k, n) <==> 0 <= p < n && KeyOf(a[p]) == k
    ensures forall i, j :: 0 <= i < j < |Positions(a, k, n)| ==> Positions(a, k, n)[i] < Positions(a, k, n)[j]
  {
    if n > 0 {
      PositionsAscend(a, k, n - 1);
      var ps := Positions(a, k, n - 1);
      assert forall i :: 0 <= i < |ps| ==> ps[i] in ps;
    }
  }

  function Entry(index: map<Key, seq<nat>>, k: Key): seq<nat> {
    if k in index then index[k] else []
  }

  /** `index` lists the positions below `n` of every key. */
  ghost predicate Indexed(index: map<Key, seq<nat>>, a: seq<Readable>, n: nat)
    requires n <= |a|
  {
    forall k :: Entry(index, k) == Positions(a, k, n)
  }

  lemma IndexStart(a: seq<Readable>)
    ensures Indexed(map[], a, 0)
  {
  }

  lemma IndexStep(index: map<Key, seq<nat>>, a: seq<Readable>, n: nat)
    requires n < |a| && Indexed(index, a, n)
    ensures Indexed(index[KeyOf(a[n]) := Entry(index, KeyOf(a[n])) + [n]], a, n + 1)
  {
    var next := index[KeyOf(a[n]) := Entry(index, KeyOf(a[n])) + [n]];
    forall k ensures Entry(next, k) == Positions(a, k, n + 1) {
      assert Entry(index, k) == Positions(a, k, n);
    }
  }

  method IndexByKey(a: seq<Readable>) returns (index: map<Key, seq<nat>>)
    ensures Indexed(index, a, |a|)
  {
    hide Indexed;
    index := map[];
    IndexStart(a);
    for i := 0 to |a|
      invariant Indexed(index, a, i)
    {
      IndexStep(index, a, i);
      index := index[KeyOf(a[i]) := Entry(index, KeyOf(a[i])) + [i]];
    }
  }

  /** The facts not consumed yet. */
  function Free(a: seq<Readable>, consumed: seq<bool>): seq<Readable>
    requires |a| == |consumed|
  {
    if a == [] then [] else (if consumed[0] then [] else [a[0]]) + Free(a[1..], consumed[1..])
  }

  /** `i` is the first free position of key `k`. */
  ghost predicate FirstFree(a: seq<Readable>, consumed: seq<bool>, k: Key, i: nat)
    requires |a| == |consumed|
  {
    && i < |a| && !consumed[i] && KeyOf(a[i]) == k
    && forall j :: 0 <= j < i ==> consumed[j] || KeyOf(a[j]) != k
  }

  lemma {:induction false} FreeFirst(a: seq<Readable>, consumed: seq<bool>, k: Key, i: nat)
    requires |a| == |consumed| && FirstFree(a, consumed, k, i)
    ensures var free := Free(a, consumed);
            HasKey(free, k) && FirstOf(free, k) == a[i] && DropFirst(free, k) == Free(a, consumed[i := true])
  {
    var free, c' := Free(a, consumed), consumed[i := true];
    if i == 0 {
      assert free[0] == a[0] && free[1..] == Free(a[1..], consumed[1..]);
      assert c'[1..] == consumed[1..];
    } else {
      FreeFirst(a[1..], consumed[1..], k, i - 1);
      assert c'[1..] == consumed[1..][i - 1 := true];
      var rest := Free(a[1..], consumed[1..]);
      if !consumed[0] {
        assert free[0] == a[0] && free[1..] == rest;
        var j :| 0 <= j < |rest| && KeyOf(rest[j]) == k;
        assert KeyOf(free[j + 1]) == k;
      } else {
        assert free == rest;
      }
    }
  }

  lemma {:induction false} FreeNone(a: seq<Readable>, consumed: seq<bool>, k: Key)
    requires |a| == |consumed| && forall j :: 0 <= j < |a| ==> consumed[j] || KeyOf(a[j]) != k
    ensures !HasKey(Free(a, consumed), k)
  {
    if a != [] {
      FreeNone(a[1..], consumed[1..], k);
    }
  }

  /** The first unconsumed entry of a key's position list, if any. */
  method FindFree(a: seq<Readable>, consumed: array<bool>, k: Key, positions: seq<nat>) returns (r: Option<nat>)
    requires consumed.Length == |a| && positions == Positions(a, k, |a|)
    ensures r.Some? ==> FirstFree(a, consumed[..], k, r.value)
    ensures r.None? ==> forall j :: 0 <= j < |a| ==> consumed[j] || KeyOf(a[j]) != k
  {
    hide Positions;
    PositionsAscend(a, k, |a|);
    assert forall i :: 0 <= i < |positions| ==> positions[i] in positions;
    for j := 0 to |positions|
      invariant forall i :: 0 <= i < j ==> consumed[positions[i]]
    {
      if !consumed[positions[j]] {
        var p := positions[j];
        forall q | 0 <= q < p && KeyOf(a[q]) == k
          ensures consumed[q]
        {
          var i :| 0 <= i < |positions| && positions[i] == q;
          assert i < j;
        }
        return Some(p);
      }
    }
    forall q | 0 <= q < |a| && KeyOf(a[q]) == k
      ensures consumed[q]
    {
      var i :| 0 <= i < |positions| && positions[i] == q;
    }
    r := None;
  }

  /** What the pairing loop has produced so far, in front of what pairing the rest gives. */
  function Under(removed: seq<Readable>, changed: seq<FactChange>, d: Delta): Delta {
    Delta(d.added, removed + d.removed, changed + d.changed)
  }

  method PairUp(r: seq<Readable>, a: seq<Readable>) returns (d: Delta)
    ensures d == Pair(r, a)
  {
    hide HasKey, FirstOf, DropFirst, FirstFree, Free, Positions;
    var index := IndexByKey(a);
    var consumed := new bool[|a|](_ => false);
    var changed: seq<FactChange>, removed: seq<Readable> := [], [];
    AllFree(a, consumed[..]);
    assert r[0..] == r;
    for n := 0 to |r|
      invariant Pair(r, a) == Under(removed, changed, Pair(r[n..], Free(a, consumed[..])))
    {
      var k := KeyOf(r[n]);
      assert r[n..][1..] == r[n + 1..];
      var matched := FindFree(a, consumed, k, Entry(index, k));
      ghost var before, free := consumed[..], Free(a, consumed[..]);
      match matched {
        case Some(i) =>
          assert i < |a| && FirstFree(a, before, k, i) by { FirstFreeIndex(a, before, k, i); }
          FreeFirst(a, before, k, i);
          consumed[i] := true;
          assert consumed[..] == before[i := true];
          UnderChanged(removed, changed, Pair(r[n + 1..], DropFirst(free, k)), Change(r[n], a[i]));
          changed := changed + [Change(r[n], a[i])];
        case None =>
          FreeNone(a, before, k);
          UnderRemoved(removed, changed, Pair(r[n + 1..], free), r[n]);
          removed := removed + [r[n]];
      }
    }
    var added := Unconsumed(a, consumed);
    d := Delta(added, removed, changed);
    assert Pair(r[|r|..], added) == Delta(added, [], []) && removed + [] == removed && changed + [] == changed;
  }

  lemma FirstFreeIndex(a: seq<Readable>, consumed: seq<bool>, k: Key, i: nat)
    requires |a| == |consumed| && FirstFree(a, consumed, k, i)
    ensures i < |a|
  {
  }

  lemma UnderChanged(removed: seq<Readable>, changed: seq<FactChange>, d: Delta, c: FactChange)
    ensures Under(removed, changed, d.(changed := [c] + d.changed)) == Under(removed, changed + [c], d)
  {
    assert changed + ([c] + d.changed) == changed + [c] + d.changed;
  }

  lemma UnderRemoved(removed: seq<Readable>, changed: seq<FactChange>, d: Delta, f: Readable)
    ensures Under(removed, changed, d.(removed := [f] + d.removed)) == Under(removed + [f], changed, d)
  {
    assert removed + ([f] + d.removed) == removed + [f] + d.removed;
  }

  lemma {:induction false} AllFree(a: seq<Readable>, consumed: seq<bool>)
    requires |a| == |consumed| && forall i :: 0 <= i < |a| ==> !consumed[i]
    ensures Free(a, consumed) == a
  {
    if a != [] {
      AllFree(a[1..], consumed[1..]);
    }
  }

  lemma {:induction false} FreeAppend(a: seq<Readable>, c: seq<bool>, b: seq<Readable>, e: seq<bool>)
    requires |a| == |c| && |b| == |e|
    ensures Free(a + b, c + e) == Free(a, c) + Free(b, e)
  {
    if a == [] {
      assert a + b == b && c + e == e;
    } else {
      assert (a + b)[1..] == a[1..] + b && (c + e)[1..] == c[1..] + e;
      FreeAppend(a[1..], c[1..], b, e);
    }
  }

  method Unconsumed(a: seq<Readable>, consumed: array<bool>) returns (added: seq<Readable>)
    requires consumed.Length == |a|
    ensures added == Free(a, consumed[..])
  {
    added := [];
    for i := 0 to |a|
      invariant added == Free(a[..i], consumed[..i])
    {
      assert a[..i + 1] == a[..i] + [a[i]] && consumed[..i + 1] == consumed[..i] + [consumed[i]];
      FreeAppend(a[..i], consumed[..i], [a[i]], [consumed[i]]);
      assert Free([a[i]][1..], [consumed[i]][1..]) == [];
      if !consumed[i] {
        added := added + [a[i]];
      }
    }
    assert a[..|a|] == a && consumed[..|a|] == consumed[..];
  }

  /** `diff`, as the source runs it. */
  method ComputeDiff(before: seq<Readable>, after: seq<Readable>) returns (d: Delta)
    ensures d == DiffOf(before, after)
    ensures Transforms(d, multiset(before), multiset(after))
    ensures forall e :: Transforms(e, multiset(before), multiset(after)) ==> d.Length() <= e.Length()
  {
    hide Transforms, Pair, Take, Quota, Tallies;
    var counts := Tally(before, after);
    TallyQuotas(counts, multiset(after), multiset(before));
    ghost var out, in_ := multiset(before) - multiset(after), multiset(after) - multiset(before);
    var removed, counts', left := Extract(before, counts, -1, out, in_);
    var added, counts'', left' := Extract(after, counts', 1, in_, left);
    d := PairUp(removed, added);
    Lossless(before, after);
    forall e | Transforms(e, multiset(before), multiset(after)) ensures d.Length() <= e.Length() {
      Minimal(before, after, e);
    }
  }

  /** `diff` on two documents: their readable facts, diffed; empty exactly when they read the same facts. */
  method DiffDocuments(before: NdaDocument, after: NdaDocument) returns (d: Delta)
    ensures d == DiffOf(ReadableFacts(before.dict.Model(), before.facts), ReadableFacts(after.dict.Model(), after.facts))
    ensures d.Length() == 0 <==> multiset(ReadableFacts(before.dict.Model(), before.facts))
                                 == multiset(ReadableFacts(after.dict.Model(), after.facts))
  {
    hide DiffOf, ReadableFacts, Transforms;
    var b := before.Readables();
    var a := after.Readables();
    d := ComputeDiff(b, a);
    EmptyIffEqual(b, a);
    assert d.Length() == 0 <==> d == Delta([], [], []);
  }
}
