/** The v1 kernel: weights in {-1,0,+1}, held as an active and a positive bit plane. */
module TernaryKernel {
  import opened Bits
  import opened Matrix
  import opened QuadKernel
  import opened BlockKernels

  /** Byte `b` of a row of the active plane (`sign`) and of the positive plane (`extra`). */
  function ActiveByte<F>(m: NdaMatrix<F>, row: nat, b: nat): bv8
    requires RowStrided(m) && row < m.rows && b < Stride(m.cols)
  {
    RowInBounds(m, row);
    m.sign[row * Stride(m.cols) + b]
  }

  function PositiveByte<F>(m: NdaMatrix<F>, row: nat, b: nat): bv8
    requires RowStrided(m) && row < m.rows && b < Stride(m.cols)
  {
    RowInBounds(m, row);
    m.extra[row * Stride(m.cols) + b]
  }

  predicate Active<F>(m: NdaMatrix<F>, row: nat, j: nat)
    requires RowStrided(m) && row < m.rows && j < 8 * Stride(m.cols)
  {
    Bit(ActiveByte(m, row, j / 8), j % 8)
  }

  predicate Positive<F>(m: NdaMatrix<F>, row: nat, j: nat)
    requires RowStrided(m) && row < m.rows && j < 8 * Stride(m.cols)
  {
    Bit(PositiveByte(m, row, j / 8), j % 8)
  }

  /** No bit past the last column is active. */
  predicate ZeroPadding<F>(m: NdaMatrix<F>, row: nat)
    requires RowStrided(m) && row < m.rows
  {
    forall j :: m.cols <= j < 8 * Stride(m.cols) ==> !Active(m, row, j)
  }

  /** The naive sum over the first `n` elements of `x`: add, subtract or skip, one element at a time. */
  function TernarySum<F>(f: Floats<F>, m: NdaMatrix<F>, row: nat, x: seq<F>, n: nat): F
    requires RowStrided(m) && row < m.rows && n <= 8 * Stride(m.cols) && n <= |x|
  {
    if n == 0 then f.zero
    else
      hide Active;
      var rest := TernarySum(f, m, row, x, n - 1);
      if !Active(m, row, n - 1) then rest
      else if Positive(m, row, n - 1) then f.add(rest, x[n - 1])
      else f.sub(rest, x[n - 1])
  }

  /** The active positions below `n`, ascending. */
  function ActiveBelow<F>(m: NdaMatrix<F>, row: nat, n: nat): (ps: seq<nat>)
    requires RowStrided(m) && row < m.rows && n <= 8 * Stride(m.cols)
    ensures forall p :: p in ps <==> 0 <= p < n && Active(m, row, p)
    ensures forall i :: 0 <= i < |ps| ==> ps[i] < n
    ensures forall i, j :: 0 <= i < j < |ps| ==> ps[i] < ps[j]
  {
    if n == 0 then []
    else
      hide Active;
      var rest := ActiveBelow(m, row, n - 1);
      if Active(m, row, n - 1) then rest + [n - 1] else rest
  }

  /** Inactive positions are neither summed nor loaded. */
  lemma {:induction false} SkipInactive<F>(f: Floats<F>, m: NdaMatrix<F>, row: nat, x: seq<F>, a: nat, b: nat)
    requires RowStrided(m) && row < m.rows && a <= b <= 8 * Stride(m.cols) && b <= |x|
    requires forall j :: a <= j < b ==> !Active(m, row, j)
    ensures TernarySum(f, m, row, x, b) == TernarySum(f, m, row, x, a)
    ensures ActiveBelow(m, row, b) == ActiveBelow(m, row, a)
  {
    hide Active, Positive, Stride;
    if a < b {
      SkipInactive(f, m, row, x, a, b - 1);
    }
  }

  lemma PlaneBits<F>(m: NdaMatrix<F>, row: nat, b: nat, k: nat)
    requires RowStrided(m) && row < m.rows && b < Stride(m.cols) && k < 8
    ensures Active(m, row, 8 * b + k) == Bit(ActiveByte(m, row, b), k)
    ensures Positive(m, row, 8 * b + k) == Bit(PositiveByte(m, row, b), k)
  {
    hide Bit, Stride, ActiveByte, PositiveByte;
    ByteAndBit(b, k);
  }

  /** `temp` holds the bits of `act` from position `p` on. */
  predicate Remaining(act: bv8, temp: bv8, p: nat)
    requires p <= 8
  {
    forall j :: 0 <= j < 8 ==> Bit(temp, j) == (p <= j && Bit(act, j))
  }

  lemma RemainingNext(act: bv8, temp: bv8, p: nat)
    requires p <= 8 && temp != 0 && Remaining(act, temp, p)
    ensures var k := TrailingZeros(temp);
            && p <= k < 8 && Bit(act, k) && Remaining(act, temp & (temp - 1), k + 1)
            && (forall j :: p <= j < k ==> !Bit(act, j))
  {
    hide Bit, TrailingZeros;
    var k := TrailingZeros(temp);
    assert Bit(temp, k) && forall j :: 0 <= j < k ==> !Bit(temp, j);
    var next := temp & (temp - 1);
    forall j | 0 <= j < 8
      ensures Bit(next, j) == (k + 1 <= j && Bit(act, j))
    {
      ClearLowestBit(temp, j);
      assert Bit(temp, j) == (p <= j && Bit(act, j));
    }
  }

  lemma RemainingNone(act: bv8, p: nat)
    requires p <= 8 && Remaining(act, 0, p)
    ensures forall j :: p <= j < 8 ==> !Bit(act, j)
  {
    hide Bit;
    ZeroByte(0);
  }

  /** Inactive bits of a byte leave the sum and the loads where they were. */
  lemma SkipInByte<F>(f: Floats<F>, m: NdaMatrix<F>, row: nat, x: seq<F>, b: nat, from: nat, to: nat)
    requires RowStrided(m) && row < m.rows && |x| >= 8 * Stride(m.cols)
    requires b < Stride(m.cols) && from <= to <= 8
    requires forall j :: from <= j < to ==> !Bit(ActiveByte(m, row, b), j)
    ensures TernarySum(f, m, row, x, 8 * b + to) == TernarySum(f, m, row, x, 8 * b + from)
    ensures ActiveBelow(m, row, 8 * b + to) == ActiveBelow(m, row, 8 * b + from)
  {
    hide Active, Positive, ActiveByte, Bit, Stride, TernarySum, ActiveBelow;
    forall j | 8 * b + from <= j < 8 * b + to
      ensures !Active(m, row, j)
    {
      PlaneBits(m, row, b, j - 8 * b);
    }
    SkipInactive(f, m, row, x, 8 * b + from, 8 * b + to);
  }

  /**
    One row of `nda_gemv_v1_tern`. The load of `x` is unchecked, so `memory` is the input followed by whatever
    lies behind it: `memory[..m.cols]` is `x`. Peeling set bits off each byte loads exactly the active
    positions of the row in ascending order; with zero padding bits it computes the naive sum over `x`.
   */
  method TernaryRow<F>(f: Floats<F>, m: NdaMatrix<F>, memory: seq<F>, row: nat) returns (y: F, loads: seq<nat>)
    requires RowStrided(m) && row < m.rows && |memory| >= 8 * Stride(m.cols)
    ensures loads == ActiveBelow(m, row, 8 * Stride(m.cols))
    ensures y == f.mul(TernarySum(f, m, row, memory, 8 * Stride(m.cols)), m.scale)
    ensures ZeroPadding(m, row) ==> y == f.mul(TernarySum(f, m, row, memory[..m.cols], m.cols), m.scale)
  {
    hide Bit, TernarySum, ActiveBelow, Active, Positive, ActiveByte, PositiveByte, Stride, ZeroPadding, Remaining,
         TrailingZeros;
    var acc := f.zero;
    loads := [];
    SumStart(f, m, row, memory);
    for b := 0 to Stride(m.cols)
      invariant acc == TernarySum(f, m, row, memory, 8 * b) && loads == ActiveBelow(m, row, 8 * b)
    {
      var act, pos := ActiveByte(m, row, b), PositiveByte(m, row, b);
      var temp := act;
      ghost var p := 0;
      RemainingAll(act);
      while temp > 0
        invariant p <= 8 && Remaining(act, temp, p)
        invariant acc == TernarySum(f, m, row, memory, 8 * b + p) && loads == ActiveBelow(m, row, 8 * b + p)
        decreases 8 - p
      {
        RemainingNext(act, temp, p);
        var bit := TrailingZeros(temp);
        SkipInByte(f, m, row, memory, b, p, bit);
        TernaryStep(f, m, row, memory, b, bit);
        var xi := memory[8 * b + bit];
        loads := loads + [8 * b + bit];
        if pos & Mask(bit) != 0 {
          acc := f.add(acc, xi);
        } else {
          acc := f.sub(acc, xi);
        }
        temp := temp & (temp - 1);
        p := bit + 1;
      }
      RemainingNone(act, p);
      SkipInByte(f, m, row, memory, b, p, 8);
    }
    if ZeroPadding(m, row) { SumAll(f, m, row, memory); }
    y := f.mul(acc, m.scale);
  }

  lemma SumStart<F>(f: Floats<F>, m: NdaMatrix<F>, row: nat, x: seq<F>)
    requires RowStrided(m) && row < m.rows
    ensures TernarySum(f, m, row, x, 0) == f.zero && ActiveBelow(m, row, 0) == []
  {
  }

  /** With zero padding bits, nothing behind `x` enters the sum. */
  lemma SumAll<F>(f: Floats<F>, m: NdaMatrix<F>, row: nat, memory: seq<F>)
    requires RowStrided(m) && row < m.rows && |memory| >= 8 * Stride(m.cols) && ZeroPadding(m, row)
    ensures TernarySum(f, m, row, memory, 8 * Stride(m.cols)) == TernarySum(f, m, row, memory[..m.cols], m.cols)
  {
    hide Active, Positive, TernarySum;
    SkipInactive(f, m, row, memory, m.cols, 8 * Stride(m.cols));
    SumOfPrefix(f, m, row, memory, m.cols, m.cols);
  }

  lemma {:induction false} SumOfPrefix<F>(f: Floats<F>, m: NdaMatrix<F>, row: nat, x: seq<F>, k: nat, n: nat)
    requires RowStrided(m) && row < m.rows && n <= k <= |x| && n <= 8 * Stride(m.cols)
    ensures TernarySum(f, m, row, x, n) == TernarySum(f, m, row, x[..k], n)
  {
    hide Active, Positive;
    if n > 0 {
      SumOfPrefix(f, m, row, x, k, n - 1);
    }
  }

  lemma RemainingAll(act: bv8)
    ensures Remaining(act, act, 0)
  {
  }

  lemma TernaryStep<F>(f: Floats<F>, m: NdaMatrix<F>, row: nat, x: seq<F>, b: nat, bit: nat)
    requires RowStrided(m) && row < m.rows && |x| >= 8 * Stride(m.cols)
    requires b < Stride(m.cols) && bit < 8
    requires Bit(ActiveByte(m, row, b), bit)
    ensures var rest := TernarySum(f, m, row, x, 8 * b + bit);
            TernarySum(f, m, row, x, 8 * b + bit + 1)
            == if PositiveByte(m, row, b) & Mask(bit) != 0 then f.add(rest, x[8 * b + bit])
               else f.sub(rest, x[8 * b + bit])
    ensures ActiveBelow(m, row, 8 * b + bit + 1) == ActiveBelow(m, row, 8 * b + bit) + [8 * b + bit]
  {
    hide Active, Positive, Stride, ActiveByte, PositiveByte;
    PlaneBits(m, row, b, bit);
  }

  // ----- when the unchecked loads are in bounds

  lemma ActiveLoaded<F>(m: NdaMatrix<F>, row: nat, j: nat)
    requires RowStrided(m) && row < m.rows && j < 8 * Stride(m.cols) && Active(m, row, j)
    ensures j in ActiveBelow(m, row, 8 * Stride(m.cols))
  {
    hide Active, Stride;
  }

  lemma LoadedActive<F>(m: NdaMatrix<F>, row: nat, p: nat)
    requires RowStrided(m) && row < m.rows && p in ActiveBelow(m, row, 8 * Stride(m.cols))
    ensures p < 8 * Stride(m.cols) && Active(m, row, p)
  {
    hide Active, Stride;
  }

  /** Every load of the row is inside `x` if and only if its padding bits are zero. */
  lemma LoadsInBoundsIff<F>(m: NdaMatrix<F>, row: nat)
    requires RowStrided(m) && row < m.rows
    ensures (forall p :: p in ActiveBelow(m, row, 8 * Stride(m.cols)) ==> p < m.cols) <==> ZeroPadding(m, row)
  {
    hide Active, Stride, ActiveBelow;
    var n := 8 * Stride(m.cols);
    if ZeroPadding(m, row) {
      forall p | p in ActiveBelow(m, row, n) ensures p < m.cols { LoadedActive(m, row, p); }
    } else {
      var j :| m.cols <= j < n && Active(m, row, j);
      ActiveLoaded(m, row, j);
    }
  }

  /** Aligned rows have no padding bits, so they load only inside the input, whatever the planes hold. */
  lemma AlignedLoadsInBounds<F>(m: NdaMatrix<F>, row: nat)
    requires RowStrided(m) && row < m.rows && m.cols % 8 == 0
    ensures ZeroPadding(m, row)
    ensures forall p :: p in ActiveBelow(m, row, 8 * Stride(m.cols)) ==> p < m.cols
  {
    hide Active, ActiveBelow;
    assert 8 * Stride(m.cols) == m.cols;
    LoadsInBoundsIff(m, row);
  }

  /** A matrix that validates and whose one row loads past the end of a one-element `x`. */
  lemma ValidatedLoadsPastEnd<F>(scale: F)
    ensures var m := NdaMatrix(1, 1, scale, NDA_V1_TERN, [2], [0], 0, 0, [], []);
            Validate(m, true) == [] && RowStrided(m) && ActiveBelow(m, 0, 8 * Stride(m.cols)) == [1]
  {
    var m := NdaMatrix(1, 1, scale, NDA_V1_TERN, [2], [0], 0, 0, [], []);
    ValidateIff(m, true);
    assert DivCeil(1, 8) == 1 && Stride(1) == 1;
    hide Validate, DivCeil;
    assert ActiveByte(m, 0, 0) == 2;
    ActiveBits(m);
    OnlyOne(m);
  }

  lemma OnlyOne<F>(m: NdaMatrix<F>)
    requires RowStrided(m) && 0 < m.rows && Stride(m.cols) == 1 && forall j :: 0 <= j < 8 ==> (Active(m, 0, j) <==> j == 1)
    ensures ActiveBelow(m, 0, 8) == [1]
  {
    hide Active, Stride;
    assert ActiveBelow(m, 0, 0) == [];
    assert ActiveBelow(m, 0, 1) == [];
    assert ActiveBelow(m, 0, 2) == [1];
    assert ActiveBelow(m, 0, 3) == [1];
    assert ActiveBelow(m, 0, 4) == [1];
    assert ActiveBelow(m, 0, 5) == [1];
    assert ActiveBelow(m, 0, 6) == [1];
    assert ActiveBelow(m, 0, 7) == [1];
  }

  lemma ActiveBits<F>(m: NdaMatrix<F>)
    requires RowStrided(m) && 0 < m.rows && Stride(m.cols) == 1 && ActiveByte(m, 0, 0) == 2
    ensures forall j :: 0 <= j < 8 ==> (Active(m, 0, j) <==> j == 1)
  {
    hide ActiveByte, Stride;
    forall j | 0 <= j < 8 ensures Active(m, 0, j) <==> j == 1 {
      PlaneBits(m, 0, 0, j);
    }
  }

  // ----- the same row, said of the weights the planes spell

  /**
    Weights -1, 0, 1 for the positions of a row, padding included: bit `j % 8` of byte `j / 8` of the row is set in
    `sign` exactly for a non-zero weight and, where it is, in `extra` exactly for a positive one.
   */
  ghost predicate SpellsTernary<F>(m: NdaMatrix<F>, row: nat, w: seq<int>)
    requires RowStrided(m) && row < m.rows
  {
    && |w| == 8 * Stride(m.cols)
    && forall j :: 0 <= j < |w| ==> SpellsWeight(m, row, j, w[j])
  }

  ghost predicate SpellsWeight<F>(m: NdaMatrix<F>, row: nat, j: nat, wj: int)
    requires RowStrided(m) && row < m.rows && j < 8 * Stride(m.cols)
  {
    RowInBounds(m, row);
    var b := row * Stride(m.cols) + j / 8;
    && wj in {-1, 0, 1}
    && (m.sign[b] as int / Power(j % 8) % 2 == 1 <==> wj != 0)
    && (wj != 0 ==> (m.extra[b] as int / Power(j % 8) % 2 == 1 <==> wj == 1))
  }

  /** Add, subtract or skip `x[j]` by the sign of `w[j]`, from the left. */
  function SignedSum<F>(f: Floats<F>, w: seq<int>, x: seq<F>, n: nat): F
    requires n <= |w| && n <= |x|
  {
    if n == 0 then f.zero
    else if w[n - 1] == 0 then SignedSum(f, w, x, n - 1)
    else if w[n - 1] > 0 then f.add(SignedSum(f, w, x, n - 1), x[n - 1])
    else f.sub(SignedSum(f, w, x, n - 1), x[n - 1])
  }

  lemma WeightPlanes<F>(m: NdaMatrix<F>, row: nat, j: nat, wj: int)
    requires RowStrided(m) && row < m.rows && j < 8 * Stride(m.cols) && SpellsWeight(m, row, j, wj)
    ensures Active(m, row, j) <==> wj != 0
    ensures wj != 0 ==> (Positive(m, row, j) <==> wj > 0)
  {
    hide Bit, Stride, Power;
    RowInBounds(m, row);
    var b := row * Stride(m.cols) + j / 8;
    BitIsDigit(m.sign[b], j % 8);
    BitIsDigit(m.extra[b], j % 8);
  }

  /** Whatever weights the planes spell, the row is their signed sum, and the non-zero ones are what it loads. */
  lemma {:induction false} TernarySumIsSigned<F>(f: Floats<F>, m: NdaMatrix<F>, row: nat, w: seq<int>, x: seq<F>, n: nat)
    requires RowStrided(m) && row < m.rows && SpellsTernary(m, row, w) && n <= |w| && n <= |x|
    ensures TernarySum(f, m, row, x, n) == SignedSum(f, w, x, n)
    ensures forall p :: p in ActiveBelow(m, row, n) <==> 0 <= p < n && w[p] != 0
  {
    hide Active, Positive, SpellsWeight, Stride;
    if n > 0 {
      TernarySumIsSigned(f, m, row, w, x, n - 1);
      WeightPlanes(m, row, n - 1, w[n - 1]);
    }
  }

  /** `TernaryRow` on a row that spells `w`: with zero weights past the last column, the signed sum over `x`, scaled. */
  method TernaryRowOf<F>(f: Floats<F>, m: NdaMatrix<F>, memory: seq<F>, row: nat, ghost w: seq<int>) returns (y: F)
    requires RowStrided(m) && row < m.rows && |memory| >= 8 * Stride(m.cols) && SpellsTernary(m, row, w)
    ensures y == f.mul(SignedSum(f, w, memory, |w|), m.scale)
    ensures (forall j :: m.cols <= j < |w| ==> w[j] == 0) ==> y == f.mul(SignedSum(f, w, memory, m.cols), m.scale)
  {
    hide Active, SpellsWeight, Stride, TernarySum, ActiveBelow;
    var loads;
    y, loads := TernaryRow(f, m, memory, row);
    TernarySumIsSigned(f, m, row, w, memory, |w|);
    if forall j :: m.cols <= j < |w| ==> w[j] == 0 { SkipZeros(f, w, memory, m.cols, |w|); }
  }

  lemma {:induction false} SkipZeros<F>(f: Floats<F>, w: seq<int>, x: seq<F>, a: nat, b: nat)
    requires a <= b <= |w| && b <= |x| && forall j :: a <= j < b ==> w[j] == 0
    ensures SignedSum(f, w, x, b) == SignedSum(f, w, x, a)
  {
    if a < b { SkipZeros(f, w, x, a, b - 1); }
  }
}
