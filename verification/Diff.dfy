/** The delta between two documents: multiset differences, paired greedily per (subject, predicate) key. */
module Diff {
  import opened Bytes
  import opened NdaModel

  type Key = (Str, Word16)

  function KeyOf(f: Readable): Key {
    (f.0, f.1)
  }

  datatype FactChange = FactChange(subject: Str, pred: Word16, old_: Str, new_: Str)

  function Before(c: FactChange): Readable {
    (c.subject, c.pred, c.old_)
  }

  function After(c: FactChange): Readable {
    (c.subject, c.pred, c.new_)
  }

  datatype Delta = Delta(added: seq<Readable>, removed: seq<Readable>, changed: seq<FactChange>) {
    function Length(): nat {
      |added| + |removed| + |changed|
    }
  }

  // ----- what is surplus in one list over another

  /** The occurrences of `xs`, from the front, that `quota` allows. */
  function Take(xs: seq<Readable>, quota: multiset<Readable>): seq<Readable> {
    if xs == [] then []
    else if xs[0] in quota then [xs[0]] + Take(xs[1..], quota - multiset{xs[0]})
    else Take(xs[1..], quota)
  }

  /** The facts `x` has beyond `y`, in the order of `x`. */
  function Surplus(x: seq<Readable>, y: seq<Readable>): seq<Readable> {
    Take(x, multiset(x) - multiset(y))
  }

  lemma {:induction false} TakeExhausts(xs: seq<Readable>, quota: multiset<Readable>)
    requires quota <= multiset(xs)
    ensures multiset(Take(xs, quota)) == quota
  {
    if xs != [] {
      assert xs == [xs[0]] + xs[1..];
      if xs[0] in quota {
        TakeExhausts(xs[1..], quota - multiset{xs[0]});
      } else {
        TakeExhausts(xs[1..], quota);
      }
    }
  }

  lemma SurplusBag(x: seq<Readable>, y: seq<Readable>)
    ensures multiset(Surplus(x, y)) == multiset(x) - multiset(y)
  {
    TakeExhausts(x, multiset(x) - multiset(y));
  }

  // ----- greedy pairing

  predicate HasKey(xs: seq<Readable>, k: Key) {
    exists i :: 0 <= i < |xs| && KeyOf(xs[i]) == k
  }

  function FirstOf(xs: seq<Readable>, k: Key): (f: Readable)
    requires HasKey(xs, k)
    ensures f in xs && KeyOf(f) == k
  {
    if KeyOf(xs[0]) == k then xs[0] else FirstOf(xs[1..], k)
  }

  /** `xs` without its first fact of key `k`. */
  function DropFirst(xs: seq<Readable>, k: Key): seq<Readable> {
    if xs == [] then []
    else if KeyOf(xs[0]) == k then xs[1..]
    else [xs[0]] + DropFirst(xs[1..], k)
  }

  function Change(old_: Readable, new_: Readable): FactChange {
    FactChange(old_.0, old_.1, old_.2, new_.2)
  }

  /** Each removal takes the first addition of its key that is still free. */
  function Pair(removed: seq<Readable>, added: seq<Readable>): Delta
    decreases |removed|
  {
    if removed == [] then Delta(added, [], [])
    else
      var k := KeyOf(removed[0]);
      if HasKey(added, k) then
        var d := Pair(removed[1..], DropFirst(added, k));
        d.(changed := [Change(removed[0], FirstOf(added, k))] + d.changed)
      else
        var d := Pair(removed[1..], added);
        d.(removed := [removed[0]] + d.removed)
  }

  /** `diff`, on the readable facts of the two documents. */
  function DiffOf(before: seq<Readable>, after: seq<Readable>): Delta {
    Pair(Surplus(before, after), Surplus(after, before))
  }

  // ----- lossless

  function Olds(cs: seq<FactChange>): seq<Readable> {
    if cs == [] then [] else [Before(cs[0])] + Olds(cs[1..])
  }

  function News(cs: seq<FactChange>): seq<Readable> {
    if cs == [] then [] else [After(cs[0])] + News(cs[1..])
  }

  /** Everything a delta takes out of, and puts into, the document. */
  function Outgoing(d: Delta): multiset<Readable> {
    multiset(d.removed) + multiset(Olds(d.changed))
  }

  function Incoming(d: Delta): multiset<Readable> {
    multiset(d.added) + multiset(News(d.changed))
  }

  /** `d` is a delta that turns the facts `before` into the facts `after`. */
  predicate Transforms(d: Delta, before: multiset<Readable>, after: multiset<Readable>) {
    Outgoing(d) <= before && before - Outgoing(d) + Incoming(d) == after
  }

  lemma {:induction false} DropFirstBag(xs: seq<Readable>, k: Key)
    requires HasKey(xs, k)
    ensures multiset(xs) == multiset(DropFirst(xs, k)) + multiset{FirstOf(xs, k)}
  {
    assert xs == [xs[0]] + xs[1..];
    if KeyOf(xs[0]) != k {
      DropFirstBag(xs[1..], k);
    }
  }

  lemma {:induction false} PairConserves(r: seq<Readable>, a: seq<Readable>)
    ensures Outgoing(Pair(r, a)) == multiset(r) && Incoming(Pair(r, a)) == multiset(a)
    decreases |r|
  {
    hide HasKey, FirstOf, DropFirst;
    if r != [] {
      assert r == [r[0]] + r[1..];
      var k := KeyOf(r[0]);
      if HasKey(a, k) {
        PairConserves(r[1..], DropFirst(a, k));
        DropFirstBag(a, k);
        var d := Pair(r[1..], DropFirst(a, k));
        var c := Change(r[0], FirstOf(a, k));
        assert Pair(r, a).changed[1..] == d.changed;
        assert Before(c) == r[0] && After(c) == FirstOf(a, k);
      } else {
        PairConserves(r[1..], a);
      }
    }
  }

  /** The delta turns the before-facts into exactly the after-facts. */
  lemma Lossless(before: seq<Readable>, after: seq<Readable>)
    ensures Transforms(DiffOf(before, after), multiset(before), multiset(after))
  {
    hide Surplus, Pair;
    SurplusBag(before, after);
    SurplusBag(after, before);
    PairConserves(Surplus(before, after), Surplus(after, before));
  }

  /** No change reports a value that did not change. */
  lemma {:induction false} PairedDiffer(r: seq<Readable>, a: seq<Readable>)
    requires forall f :: f in r ==> f !in a
    ensures forall i :: 0 <= i < |Pair(r, a).changed| ==> Pair(r, a).changed[i].old_ != Pair(r, a).changed[i].new_
    decreases |r|
  {
    hide HasKey, FirstOf, DropFirst;
    if r != [] {
      var k := KeyOf(r[0]);
      if HasKey(a, k) {
        DropFirstBag(a, k);
        forall f | f in DropFirst(a, k) ensures f in a {
          assert f in multiset(DropFirst(a, k));
          assert f in multiset(a);
        }
        PairedDiffer(r[1..], DropFirst(a, k));
        assert FirstOf(a, k) in a && r[0] !in a;
      } else {
        PairedDiffer(r[1..], a);
      }
    }
  }

  lemma ChangesDiffer(before: seq<Readable>, after: seq<Readable>)
    ensures forall c :: c in DiffOf(before, after).changed ==> c.old_ != c.new_
  {
    hide Surplus, Pair;
    var r, a := Surplus(before, after), Surplus(after, before);
    SurplusBag(before, after);
    SurplusBag(after, before);
    forall f | f in r ensures f !in a {
      assert f in multiset(r);
      assert f !in multiset(a);
    }
    PairedDiffer(r, a);
  }

  // ----- keys

  function KeyBag(xs: seq<Readable>): multiset<Key> {
    if xs == [] then multiset{} else multiset{KeyOf(xs[0])} + KeyBag(xs[1..])
  }

  lemma {:induction false} KeyBagAppend(a: seq<Readable>, b: seq<Readable>)
    ensures KeyBag(a + b) == KeyBag(a) + KeyBag(b)
  {
    if a == [] {
      assert a + b == b;
    } else {
      assert (a + b)[1..] == a[1..] + b;
      KeyBagAppend(a[1..], b);
    }
  }

  lemma {:induction false} KeyBagHas(xs: seq<Readable>, k: Key)
    ensures k in KeyBag(xs) <==> HasKey(xs, k)
  {
    if xs != [] {
      KeyBagHas(xs[1..], k);
      if i :| 0 <= i < |xs| && KeyOf(xs[i]) == k {
        assert i == 0 || xs[i] == xs[1..][i - 1];
      }
      if j :| 0 <= j < |xs[1..]| && KeyOf(xs[1..][j]) == k {
        assert KeyOf(xs[j + 1]) == k;
      }
    }
  }

  lemma {:induction false} KeyBagDropFirst(xs: seq<Readable>, k: Key)
    requires HasKey(xs, k)
    ensures KeyBag(xs) == KeyBag(DropFirst(xs, k)) + multiset{k}
  {
    if KeyOf(xs[0]) != k {
      assert HasKey(xs[1..], k) by {
        var i :| 0 <= i < |xs| && KeyOf(xs[i]) == k;
        assert xs[1..][i - 1] == xs[i];
      }
      KeyBagDropFirst(xs[1..], k);
      assert DropFirst(xs, k)[1..] == DropFirst(xs[1..], k);
    }
  }

  /** What is left of `xs` once each key of `bag` has used up one fact, from the front. */
  function Leftover(xs: seq<Readable>, bag: multiset<Key>): seq<Readable> {
    if xs == [] then []
    else if KeyOf(xs[0]) in bag then Leftover(xs[1..], bag - multiset{KeyOf(xs[0])})
    else [xs[0]] + Leftover(xs[1..], bag)
  }

  lemma {:induction false} LeftoverDropFirst(xs: seq<Readable>, k: Key, bag: multiset<Key>)
    ensures Leftover(xs, bag + multiset{k}) == Leftover(DropFirst(xs, k), bag)
  {
    if xs != [] && KeyOf(xs[0]) != k {
      var rest := DropFirst(xs, k)[1..];
      assert rest == DropFirst(xs[1..], k);
      var q := KeyOf(xs[0]);
      if q in bag {
        LeftoverDropFirst(xs[1..], k, bag - multiset{q});
        assert bag + multiset{k} - multiset{q} == bag - multiset{q} + multiset{k};
      } else {
        LeftoverDropFirst(xs[1..], k, bag);
      }
    } else if xs != [] {
      assert bag + multiset{k} - multiset{k} == bag;
    }
  }

  lemma {:induction false} DropFirstAbsent(xs: seq<Readable>, k: Key)
    requires !HasKey(xs, k)
    ensures DropFirst(xs, k) == xs
  {
    if xs != [] {
      assert KeyOf(xs[0]) != k;
      assert forall i :: 0 <= i < |xs[1..]| ==> xs[1..][i] == xs[i + 1];
      DropFirstAbsent(xs[1..], k);
    }
  }

  /** Both leftovers in closed form: each side keeps what the other side's keys cannot absorb. */
  lemma {:induction false} PairLeftovers(r: seq<Readable>, a: seq<Readable>)
    ensures Pair(r, a).removed == Leftover(r, KeyBag(a))
    ensures Pair(r, a).added == Leftover(a, KeyBag(r))
    decreases |r|
  {
    hide HasKey, FirstOf, DropFirst;
    if r == [] {
      LeftoverAll(a);
    } else {
      var k := KeyOf(r[0]);
      KeyBagHas(a, k);
      LeftoverDropFirst(a, k, KeyBag(r[1..]));
      assert KeyBag(r) == KeyBag(r[1..]) + multiset{k};
      if HasKey(a, k) {
        KeyBagDropFirst(a, k);
        assert KeyBag(a) - multiset{k} == KeyBag(DropFirst(a, k));
        PairLeftovers(r[1..], DropFirst(a, k));
      } else {
        DropFirstAbsent(a, k);
        PairLeftovers(r[1..], a);
      }
    }
  }

  lemma {:induction false} LeftoverAll(xs: seq<Readable>)
    ensures Leftover(xs, multiset{}) == xs
  {
    if xs != [] {
      LeftoverAll(xs[1..]);
    }
  }

  lemma {:induction false} LeftoverBag(xs: seq<Readable>, bag: multiset<Key>)
    ensures KeyBag(Leftover(xs, bag)) == KeyBag(xs) - bag
  {
    if xs != [] {
      var k := KeyOf(xs[0]);
      if k in bag {
        LeftoverBag(xs[1..], bag - multiset{k});
      } else {
        LeftoverBag(xs[1..], bag);
        assert Leftover(xs, bag)[1..] == Leftover(xs[1..], bag);
      }
    }
  }

  /** No key is reported both as added and as removed. */
  lemma NoSharedKey(before: seq<Readable>, after: seq<Readable>, k: Key)
    ensures var d := DiffOf(before, after); !(HasKey(d.added, k) && HasKey(d.removed, k))
  {
    hide Surplus, Pair, HasKey, Leftover;
    var r, a := Surplus(before, after), Surplus(after, before);
    PairLeftovers(r, a);
    LeftoverBag(r, KeyBag(a));
    LeftoverBag(a, KeyBag(r));
    KeyBagHas(Pair(r, a).added, k);
    KeyBagHas(Pair(r, a).removed, k);
  }

  // ----- minimal

  /** Pointwise maximum: a key counts as often as it does in whichever bag has more of it. */
  function MaxUnion(a: multiset<Key>, b: multiset<Key>): (m: multiset<Key>)
    ensures forall k :: m[k] == if a[k] >= b[k] then a[k] else b[k]
  {
    a + (b - a)
  }

  lemma WithoutOne(ys: seq<Readable>, i: nat)
    requires i < |ys|
    ensures var rest := ys[..i] + ys[i + 1..];
            && multiset(ys) == multiset(rest) + multiset{ys[i]}
            && KeyBag(ys) == KeyBag(rest) + multiset{KeyOf(ys[i])}
  {
    assert ys == ys[..i] + [ys[i]] + ys[i + 1..];
    KeyBagAppend(ys[..i] + [ys[i]], ys[i + 1..]);
    KeyBagAppend(ys[..i], [ys[i]]);
    KeyBagAppend(ys[..i], ys[i + 1..]);
    assert KeyBag([ys[i]]) == multiset{KeyOf(ys[i])} + KeyBag([ys[i]][1..]);
  }

  lemma {:induction false} KeyBagMonotone(xs: seq<Readable>, ys: seq<Readable>)
    requires multiset(xs) <= multiset(ys)
    ensures KeyBag(xs) <= KeyBag(ys)
  {
    if xs != [] {
      assert xs == [xs[0]] + xs[1..];
      assert xs[0] in multiset(ys);
      var i :| 0 <= i < |ys| && ys[i] == xs[0];
      var rest := ys[..i] + ys[i + 1..];
      WithoutOne(ys, i);
      assert multiset(xs) == multiset(xs[1..]) + multiset{xs[0]};
      BagCancel(multiset(xs[1..]), multiset(rest), xs[0]);
      KeyBagMonotone(xs[1..], rest);
    }
  }

  lemma BagCancel(a: multiset<Readable>, b: multiset<Readable>, f: Readable)
    requires a + multiset{f} <= b + multiset{f}
    ensures a <= b
  {
    forall g ensures a[g] <= b[g] {
      assert (a + multiset{f})[g] <= (b + multiset{f})[g];
    }
  }

  lemma {:induction false} KeyBagSize(xs: seq<Readable>)
    ensures |KeyBag(xs)| == |xs|
  {
    if xs != [] {
      KeyBagSize(xs[1..]);
    }
  }

  lemma {:induction false} ChangeBags(cs: seq<FactChange>)
    ensures |Olds(cs)| == |cs| && |News(cs)| == |cs| && KeyBag(Olds(cs)) == KeyBag(News(cs))
  {
    if cs != [] {
      ChangeBags(cs[1..]);
      assert Olds(cs)[1..] == Olds(cs[1..]) && News(cs)[1..] == News(cs[1..]);
    }
  }

  /** The keys a delta mentions, once per entry. */
  function DeltaKeys(d: Delta): multiset<Key> {
    KeyBag(d.removed) + KeyBag(d.added) + KeyBag(Olds(d.changed))
  }

  lemma DeltaKeysSize(d: Delta)
    ensures |DeltaKeys(d)| == d.Length()
  {
    KeyBagSize(d.removed);
    KeyBagSize(d.added);
    KeyBagSize(Olds(d.changed));
    ChangeBags(d.changed);
  }

  /** A delta that transforms `before` into `after` mentions every surplus and every missing key. */
  lemma TransformNeedsKeys(d: Delta, before: seq<Readable>, after: seq<Readable>)
    requires Transforms(d, multiset(before), multiset(after))
    ensures MaxUnion(KeyBag(Surplus(before, after)), KeyBag(Surplus(after, before))) <= DeltaKeys(d)
  {
    hide Surplus, KeyBag;
    var r, a := Surplus(before, after), Surplus(after, before);
    SurplusBag(before, after);
    SurplusBag(after, before);
    var out, in_ := d.removed + Olds(d.changed), d.added + News(d.changed);
    NetEffect(multiset(before), multiset(after), multiset(out), multiset(in_));
    KeyBagMonotone(r, out);
    KeyBagMonotone(a, in_);
    KeyBagAppend(d.removed, Olds(d.changed));
    KeyBagAppend(d.added, News(d.changed));
    ChangeBags(d.changed);
  }

  lemma NetEffect(b: multiset<Readable>, a: multiset<Readable>, out: multiset<Readable>, in_: multiset<Readable>)
    requires out <= b && b - out + in_ == a
    ensures b - a <= out && a - b <= in_
  {
  }

  lemma BagSizeMonotone(a: multiset<Key>, b: multiset<Key>)
    requires a <= b
    ensures |a| <= |b|
  {
    assert b == a + (b - a);
  }

  /** The delta mentions each key exactly max(surplus, deficit) times. */
  lemma DiffKeys(before: seq<Readable>, after: seq<Readable>)
    ensures DeltaKeys(DiffOf(before, after))
         == MaxUnion(KeyBag(Surplus(before, after)), KeyBag(Surplus(after, before)))
  {
    hide Surplus, KeyBag, Pair, Leftover, MaxUnion;
    var r, a := Surplus(before, after), Surplus(after, before);
    var d := Pair(r, a);
    PairLeftovers(r, a);
    LeftoverBag(r, KeyBag(a));
    LeftoverBag(a, KeyBag(r));
    PairConserves(r, a);
    KeyBagOfBag(d.removed + Olds(d.changed), r);
    KeyBagAppend(d.removed, Olds(d.changed));
    assert forall k :: DeltaKeys(d)[k] == MaxUnion(KeyBag(r), KeyBag(a))[k];
  }

  lemma KeyBagOfBag(xs: seq<Readable>, ys: seq<Readable>)
    requires multiset(xs) == multiset(ys)
    ensures KeyBag(xs) == KeyBag(ys)
  {
    KeyBagMonotone(xs, ys);
    KeyBagMonotone(ys, xs);
  }

  /** No delta that transforms `before` into `after` is shorter, and the length is the per-key maximum. */
  lemma Minimal(before: seq<Readable>, after: seq<Readable>, d: Delta)
    requires Transforms(d, multiset(before), multiset(after))
    ensures DiffOf(before, after).Length() <= d.Length()
    ensures DiffOf(before, after).Length()
         == |MaxUnion(KeyBag(Surplus(before, after)), KeyBag(Surplus(after, before)))|
  {
    hide Surplus, KeyBag, DiffOf, MaxUnion, DeltaKeys;
    TransformNeedsKeys(d, before, after);
    DiffKeys(before, after);
    DeltaKeysSize(d);
    DeltaKeysSize(DiffOf(before, after));
    BagSizeMonotone(DeltaKeys(DiffOf(before, after)), DeltaKeys(d));
  }

  /** The delta is empty exactly when the documents hold the same facts, duplicates counted. */
  lemma EmptyIffEqual(before: seq<Readable>, after: seq<Readable>)
    ensures DiffOf(before, after) == Delta([], [], []) <==> multiset(before) == multiset(after)
  {
    hide Surplus, Pair;
    SurplusBag(before, after);
    SurplusBag(after, before);
    var r, a := Surplus(before, after), Surplus(after, before);
    PairConserves(r, a);
    if multiset(before) == multiset(after) {
      assert |multiset(r)| == 0 && |multiset(a)| == 0;
      assert Pair([], []) == Delta([], [], []) by { PairNothing(); }
    }
  }

  lemma PairNothing()
    ensures Pair([], []) == Delta([], [], [])
  {
  }

  // ----- reversible

  function Swap(c: FactChange): FactChange {
    FactChange(c.subject, c.pred, c.new_, c.old_)
  }

  function SwapAll(cs: seq<FactChange>): seq<FactChange> {
    seq(|cs|, i requires 0 <= i < |cs| => Swap(cs[i]))
  }

  function OfKey(xs: seq<Readable>, k: Key): seq<Readable> {
    if xs == [] then [] else (if KeyOf(xs[0]) == k then [xs[0]] else []) + OfKey(xs[1..], k)
  }

  function ChangesOfKey(cs: seq<FactChange>, k: Key): seq<FactChange> {
    if cs == [] then [] else (if KeyOf(Before(cs[0])) == k then [cs[0]] else []) + ChangesOfKey(cs[1..], k)
  }

  function ZipChanges(xs: seq<Readable>, ys: seq<Readable>): seq<FactChange> {
    if xs == [] || ys == [] then [] else [Change(xs[0], ys[0])] + ZipChanges(xs[1..], ys[1..])
  }

  lemma HasKeyTail(xs: seq<Readable>, k: Key)
    requires HasKey(xs, k) && KeyOf(xs[0]) != k
    ensures HasKey(xs[1..], k)
  {
    hide KeyOf;
    var i :| 0 <= i < |xs| && KeyOf(xs[i]) == k;
    assert xs[1..][i - 1] == xs[i];
  }

  lemma {:induction false} OfKeyDropFirst(xs: seq<Readable>, k: Key, q: Key)
    requires HasKey(xs, k)
    ensures q != k ==> OfKey(DropFirst(xs, k), q) == OfKey(xs, q)
    ensures OfKey(xs, k) == [FirstOf(xs, k)] + OfKey(DropFirst(xs, k), k)
  {
    assert xs != [];
    hide KeyOf, HasKey;
    if KeyOf(xs[0]) != k {
      HasKeyTail(xs, k);
      OfKeyDropFirst(xs[1..], k, q);
      assert DropFirst(xs, k)[1..] == DropFirst(xs[1..], k);
    }
  }

  lemma {:induction false} OfKeyAbsent(xs: seq<Readable>, k: Key)
    requires !HasKey(xs, k)
    ensures OfKey(xs, k) == []
  {
    if xs != [] {
      assert KeyOf(xs[0]) != k;
      assert forall i :: 0 <= i < |xs[1..]| ==> xs[1..][i] == xs[i + 1];
      OfKeyAbsent(xs[1..], k);
    }
  }

  /** Per key, the pairing is a zip: the j-th removal meets the j-th addition. */
  lemma {:induction false} PairZips(r: seq<Readable>, a: seq<Readable>, k: Key)
    ensures ChangesOfKey(Pair(r, a).changed, k) == ZipChanges(OfKey(r, k), OfKey(a, k))
    decreases |r|
  {
    hide HasKey, FirstOf, DropFirst;
    if r != [] {
      var q := KeyOf(r[0]);
      if HasKey(a, q) {
        var d := Pair(r[1..], DropFirst(a, q));
        PairZips(r[1..], DropFirst(a, q), k);
        OfKeyDropFirst(a, q, k);
        assert Pair(r, a).changed[1..] == d.changed;
        if q == k {
          assert OfKey(r, k)[1..] == OfKey(r[1..], k);
          assert OfKey(a, k)[1..] == OfKey(DropFirst(a, q), k);
        } else {
          assert OfKey(r, k) == OfKey(r[1..], k);
          assert ChangesOfKey(Pair(r, a).changed, k) == ChangesOfKey(d.changed, k);
        }
      } else {
        OfKeyAbsent(a, q);
        PairZips(r[1..], a, k);
        assert q != k ==> OfKey(r, k) == OfKey(r[1..], k);
      }
    }
  }

  lemma {:induction false} OfKeyKeys(xs: seq<Readable>, k: Key)
    ensures forall i :: 0 <= i < |OfKey(xs, k)| ==> KeyOf(OfKey(xs, k)[i]) == k
  {
    if xs != [] {
      OfKeyKeys(xs[1..], k);
    }
  }

  lemma {:induction false} ZipSwaps(xs: seq<Readable>, ys: seq<Readable>, k: Key)
    requires forall i :: 0 <= i < |xs| ==> KeyOf(xs[i]) == k
    requires forall i :: 0 <= i < |ys| ==> KeyOf(ys[i]) == k
    ensures ZipChanges(ys, xs) == SwapAll(ZipChanges(xs, ys))
  {
    if xs != [] && ys != [] {
      ZipSwaps(xs[1..], ys[1..], k);
      assert KeyOf(xs[0]) == KeyOf(ys[0]);
      assert SwapAll(ZipChanges(xs, ys))[1..] == SwapAll(ZipChanges(xs[1..], ys[1..]));
      assert SwapAll(ZipChanges(xs, ys)) == [SwapAll(ZipChanges(xs, ys))[0]] + SwapAll(ZipChanges(xs, ys))[1..];
    }
  }

  /** How often a change occurs can be counted within its key. */
  lemma {:induction false} CountWithinKey(cs: seq<FactChange>, c: FactChange)
    ensures multiset(cs)[c] == multiset(ChangesOfKey(cs, KeyOf(Before(c))))[c]
  {
    if cs != [] {
      CountWithinKey(cs[1..], c);
      assert cs == [cs[0]] + cs[1..];
    }
  }

  lemma {:induction false} SwapOfKey(cs: seq<FactChange>, k: Key)
    ensures ChangesOfKey(SwapAll(cs), k) == SwapAll(ChangesOfKey(cs, k))
  {
    if cs != [] {
      SwapOfKey(cs[1..], k);
      assert SwapAll(cs)[1..] == SwapAll(cs[1..]);
    }
  }

  /** Diffing the other way round swaps added with removed, and old with new in every change. */
  lemma Reversible(before: seq<Readable>, after: seq<Readable>)
    ensures var d, e := DiffOf(before, after), DiffOf(after, before);
            && e.added == d.removed && e.removed == d.added
            && multiset(e.changed) == multiset(SwapAll(d.changed))
  {
    hide Surplus, Pair, SwapAll, ZipChanges, ChangesOfKey, OfKey;
    var r, a := Surplus(before, after), Surplus(after, before);
    var d, e := Pair(r, a), Pair(a, r);
    PairLeftovers(r, a);
    PairLeftovers(a, r);
    forall c: FactChange
      ensures multiset(e.changed)[c] == multiset(SwapAll(d.changed))[c]
    {
      var k := KeyOf(Before(c));
      CountWithinKey(e.changed, c);
      CountWithinKey(SwapAll(d.changed), c);
      PairZips(r, a, k);
      PairZips(a, r, k);
      SwapOfKey(d.changed, k);
      OfKeyKeys(r, k);
      OfKeyKeys(a, k);
      ZipSwaps(OfKey(r, k), OfKey(a, k), k);
    }
  }

  // ----- which occurrences are taken and in which order, stepping from the other end

  /** Of equal facts the first occurrences are taken, each where it stands. */
  lemma {:induction false} TakeIs(xs: seq<Readable>, f: Readable, q: multiset<Readable>)
    ensures Take([], q) == []
    ensures Take(xs + [f], q) == Take(xs, q) + (if multiset(xs)[f] < q[f] then [f] else [])
    decreases |xs|
  {
    if xs == [] {
      assert xs + [f] == [f] && [f][1..] == [];
    } else {
      var x, rest := xs[0], xs[1..];
      assert (xs + [f])[1..] == rest + [f] && xs == [x] + rest;
      if x in q {
        TakeIs(rest, f, q - multiset{x});
        assert (q - multiset{x})[f] == (if f == x then q[f] - 1 else q[f]);
      } else {
        TakeIs(rest, f, q);
      }
    }
  }

  /** Left over within a key are the last ones, each where it stands. */
  lemma {:induction false} LeftoverIs(xs: seq<Readable>, f: Readable, bag: multiset<Key>)
    ensures Leftover([], bag) == []
    ensures Leftover(xs + [f], bag) == Leftover(xs, bag) + (if KeyBag(xs)[KeyOf(f)] < bag[KeyOf(f)] then [] else [f])
    decreases |xs|
  {
    if xs == [] {
      assert xs + [f] == [f] && [f][1..] == [];
    } else {
      var k, rest := KeyOf(xs[0]), xs[1..];
      assert (xs + [f])[1..] == rest + [f];
      if k in bag {
        LeftoverIs(rest, f, bag - multiset{k});
      } else {
        LeftoverIs(rest, f, bag);
      }
    }
  }

  /** The removals that find a partner, in document order. */
  function Partnered(xs: seq<Readable>, bag: multiset<Key>): seq<Readable> {
    if xs == [] then []
    else if KeyOf(xs[0]) in bag then [xs[0]] + Partnered(xs[1..], bag - multiset{KeyOf(xs[0])})
    else Partnered(xs[1..], bag)
  }

  /** Within a key the first removals find partners, as many as there are additions. */
  lemma {:induction false} PartneredIs(xs: seq<Readable>, f: Readable, bag: multiset<Key>)
    ensures Partnered([], bag) == []
    ensures Partnered(xs + [f], bag) == Partnered(xs, bag) + (if KeyBag(xs)[KeyOf(f)] < bag[KeyOf(f)] then [f] else [])
    decreases |xs|
  {
    if xs == [] {
      assert xs + [f] == [f] && [f][1..] == [];
    } else {
      var k, rest := KeyOf(xs[0]), xs[1..];
      assert (xs + [f])[1..] == rest + [f];
      if k in bag {
        PartneredIs(rest, f, bag - multiset{k});
      } else {
        PartneredIs(rest, f, bag);
      }
    }
  }

  /** Changes come in the order of the removals they explain. */
  lemma {:induction false} ChangesInOrder(r: seq<Readable>, a: seq<Readable>)
    ensures Olds(Pair(r, a).changed) == Partnered(r, KeyBag(a))
    decreases |r|
  {
    hide KeyBag, HasKey, DropFirst, FirstOf, KeyOf;
    if r != [] {
      var k := KeyOf(r[0]);
      KeyBagHas(a, k);
      if HasKey(a, k) {
        KeyBagDropFirst(a, k);
        assert KeyBag(a) - multiset{k} == KeyBag(DropFirst(a, k));
        ChangesInOrder(r[1..], DropFirst(a, k));
        assert Before(Change(r[0], FirstOf(a, k))) == r[0];
      } else {
        ChangesInOrder(r[1..], a);
      }
    }
  }
}
