/** The v2 kernels: weights and activations in {-2,-1,+1,+2}, held as sign and extra bit planes. */
module QuadKernel {
  import opened Bits
  import opened Matrix

  /** The XNOR decode rule: equal sign and extra bits mean magnitude 2. */
  function Decode(sign: bool, extra: bool): (w: int)
    ensures w in {-2, -1, 1, 2}
  {
    var magnitude := if sign == extra then 2 else 1;
    if sign then magnitude else -magnitude
  }

  /** Element `i` of a pair of bit planes, packed eight to a byte. */
  function CodeAt(sign: seq<bv8>, extra: seq<bv8>, i: nat): (w: int)
    requires i / 8 < |sign| && i / 8 < |extra|
    ensures w in {-2, -1, 1, 2}
  {
    Decode(Bit(sign[i / 8], i % 8), Bit(extra[i / 8], i % 8))
  }

  function Codes(sign: seq<bv8>, extra: seq<bv8>, n: nat): (codes: seq<int>)
    requires n <= 8 * |sign| && n <= 8 * |extra|
    ensures |codes| == n
  {
    seq(n, i requires 0 <= i < n => CodeAt(sign, extra, i))
  }

  /** The plain dot product of `n` weights, starting at element `base`, with the activations `x`. */
  function Dot(sign: seq<bv8>, extra: seq<bv8>, base: nat, x: seq<int>, n: nat): int
    requires n <= |x| && base + n <= 8 * |sign| && base + n <= 8 * |extra|
  {
    if n == 0 then 0
    else Dot(sign, extra, base, x, n - 1) + CodeAt(sign, extra, base + n - 1) * x[n - 1]
  }

  function Stride(cols: nat): (s: nat)
    ensures cols <= 8 * s < cols + 8
  {
    DivCeil(cols, 8)
  }

  /** The bit planes hold `rows` rows of `stride` bytes: what the kernels index without a panic. */
  predicate RowStrided<F>(m: NdaMatrix<F>) {
    && m.rows * Stride(m.cols) <= |m.sign|
    && m.rows * Stride(m.cols) <= |m.extra|
  }

  lemma RowInBounds<F>(m: NdaMatrix<F>, row: nat)
    requires RowStrided(m) && row < m.rows
    ensures row * Stride(m.cols) + Stride(m.cols) <= m.rows * Stride(m.cols)
  {
    var s := Stride(m.cols);
    assert (row + 1) * s <= m.rows * s;
  }

  /** First element of a row, counted in elements. */
  function RowBase(cols: nat, row: nat): nat {
    8 * (row * Stride(cols))
  }

  /** The plain dot product of a row's first `n` weights with `x`. */
  function RowDot<F>(m: NdaMatrix<F>, row: nat, x: seq<int>, n: nat): int
    requires RowStrided(m) && row < m.rows && n <= |x| && n <= 8 * Stride(m.cols)
  {
    RowInBounds(m, row);
    Dot(m.sign, m.extra, RowBase(m.cols, row), x, n)
  }

  /** Weight `j` of a row. */
  function RowCode<F>(m: NdaMatrix<F>, row: nat, j: nat): (w: int)
    requires RowStrided(m) && row < m.rows && j < 8 * Stride(m.cols)
    ensures w in {-2, -1, 1, 2}
  {
    RowInBounds(m, row);
    CodeAt(m.sign, m.extra, RowBase(m.cols, row) + j)
  }

  lemma RowDotStep<F>(m: NdaMatrix<F>, row: nat, x: seq<int>, n: nat)
    requires RowStrided(m) && row < m.rows && n <= |x| && n <= 8 * Stride(m.cols)
    ensures RowDot(m, row, x, n) == if n == 0 then 0 else RowDot(m, row, x, n - 1) + RowCode(m, row, n - 1) * x[n - 1]
  {
    hide CodeAt;
  }

  /** For byte-aligned rows the strided layout is the flat one `validate` and `quad_distribution` use. */
  lemma AlignedLayout<F>(m: NdaMatrix<F>, row: nat)
    requires m.cols % 8 == 0
    ensures 8 * Stride(m.cols) == m.cols
    ensures RowBase(m.cols, row) == row * m.cols
    ensures DivCeil(m.rows * m.cols, 8) == m.rows * Stride(m.cols)
    ensures m.version == NDA_V2_QUAD && Validate(m, true) == [] ==> RowStrided(m)
  {
    var s := Stride(m.cols);
    assert m.cols == 8 * s;
    assert row * m.cols == 8 * (row * s);
    assert m.rows * m.cols == 8 * (m.rows * s);
  }

  /**
    A validated v1 or v2 matrix packs its rows without padding while the kernels step by whole bytes, so
    every access is in bounds exactly when the rows are byte-aligned or too few for the difference to show.
   */
  lemma ValidatedFitsIff<F>(m: NdaMatrix<F>)
    requires m.version == NDA_V1_TERN || m.version == NDA_V2_QUAD
    requires Validate(m, true) == []
    ensures RowStrided(m) <==> m.cols % 8 == 0 || m.rows <= DivCeil(m.rows * (m.cols % 8), 8)
  {
    hide Validate;
    ValidateIff(m, true);
    var q, r := m.cols / 8, m.cols % 8;
    assert m.rows * m.cols == 8 * (m.rows * q) + m.rows * r;
    CeilOfSum(m.rows * q, m.rows * r);
    if r == 0 {
      assert Stride(m.cols) == q;
    } else {
      assert Stride(m.cols) == q + 1;
      assert m.rows * (q + 1) == m.rows * q + m.rows;
    }
  }

  lemma CeilOfSum(a: nat, b: nat)
    ensures DivCeil(8 * a + b, 8) == a + DivCeil(b, 8)
  {
  }

  /** Every row starts where the flat packing puts it if and only if rows are byte-aligned or there is only one. */
  lemma LayoutsAgreeIff(rows: nat, cols: nat)
    ensures (forall row :: 0 <= row < rows ==> RowBase(cols, row) == row * cols) <==> cols % 8 == 0 || rows <= 1
  {
    if cols % 8 == 0 {
      forall row | 0 <= row < rows ensures RowBase(cols, row) == row * cols {
        assert row * cols == 8 * (row * Stride(cols)) by { assert cols == 8 * Stride(cols); }
      }
    } else if rows > 1 {
      assert RowBase(cols, 1) == 8 * Stride(cols) != 1 * cols;
    }
  }

  /** Eight rows of one column validate in one byte per plane, of which the kernels would read eight. */
  lemma ValidatedOutOfBounds<F>(scale: F)
    ensures var m := NdaMatrix(8, 1, scale, NDA_V2_QUAD, [0], [0], 0, 0, [], []);
            Validate(m, true) == [] && !RowStrided(m)
  {
  }

  /** Two rows of seven columns validate and are in bounds, yet the second row is read a bit too late. */
  lemma ValidatedMisread<F>(scale: F)
    ensures var m := NdaMatrix(2, 7, scale, NDA_V2_QUAD, [0x80, 0], [0x80, 0], 0, 0, [], []);
            && Validate(m, true) == [] && RowStrided(m)
            && CodeAt(m.sign, m.extra, 1 * m.cols) == 2 && RowCode(m, 1, 0) == -2
  {
    assert Bit(0x80, 7) && !Bit(0, 0);
  }

  // ----- the byte step: eight products at once

  /** `p` counted once, again where the weight is large, again where the activation is, again where both are. */
  function Weighted(p: bv8, wLarge: bv8, xLarge: bv8): nat {
    CountOnes(p) + CountOnes(p & wLarge) + CountOnes(p & xLarge) + CountOnes((p & wLarge) & xLarge)
  }

  function PosContrib(ws: bv8, we: bv8, xs: bv8, xe: bv8): nat {
    Weighted(!(ws ^ xs), !(ws ^ we), !(xs ^ xe))
  }

  function NegContrib(ws: bv8, we: bv8, xs: bv8, xe: bv8): nat {
    Weighted(ws ^ xs, !(ws ^ we), !(xs ^ xe))
  }

  function Product(ws: bv8, we: bv8, xs: bv8, xe: bv8, k: nat): (p: int)
    requires k < 8
    ensures -4 <= p <= 4
  {
    Decode(Bit(ws, k), Bit(we, k)) * Decode(Bit(xs, k), Bit(xe, k))
  }

  /** One lane: membership of bit `k` in `p`, `p & wLarge`, `p & xLarge` and all three. */
  function Lane(p: bv8, wLarge: bv8, xLarge: bv8, k: nat): nat
    requires k < 8
  {
    BitValue(p, k) + BitValue(p & wLarge, k) + BitValue(p & xLarge, k) + BitValue((p & wLarge) & xLarge, k)
  }

  /** The product of two magnitudes, given which of them are large. */
  function Magnitude(wLarge: bool, xLarge: bool): int {
    if wLarge && xLarge then 4 else if wLarge || xLarge then 2 else 1
  }

  lemma LaneValue(p: bv8, wLarge: bv8, xLarge: bv8, k: nat)
    requires k < 8
    ensures Lane(p, wLarge, xLarge, k) == if Bit(p, k) then Magnitude(Bit(wLarge, k), Bit(xLarge, k)) else 0
  {
    hide Bit, BitValue, Magnitude;
    var both := p & wLarge;
    AndBit(p, wLarge, k);
    AndBit(p, xLarge, k);
    AndBit(both, xLarge, k);
    LaneOf(p, both, p & xLarge, both & xLarge, Bit(wLarge, k), Bit(xLarge, k), k);
  }

  lemma LaneOf(p: bv8, pw: bv8, px: bv8, pwx: bv8, w: bool, x: bool, k: nat)
    requires k < 8
    requires Bit(pw, k) == (Bit(p, k) && w) && Bit(px, k) == (Bit(p, k) && x) && Bit(pwx, k) == (Bit(pw, k) && x)
    ensures BitValue(p, k) + BitValue(pw, k) + BitValue(px, k) + BitValue(pwx, k)
         == if Bit(p, k) then Magnitude(w, x) else 0
  {
    hide Bit;
  }

  lemma DecodeProduct(ws: bool, we: bool, xs: bool, xe: bool)
    ensures Decode(ws, we) * Decode(xs, xe)
         == if ws == xs then Magnitude(ws == we, xs == xe) else -Magnitude(ws == we, xs == xe)
  {
  }

  lemma XnorBit(a: bv8, b: bv8, k: nat)
    requires k < 8
    ensures Bit(!(a ^ b), k) <==> Bit(a, k) == Bit(b, k)
  {
    hide Bit;
    XorBit(a, b, k);
    NotBit(a ^ b, k);
  }

  lemma LaneIsProduct(ws: bv8, we: bv8, xs: bv8, xe: bv8, k: nat)
    requires k < 8
    ensures Lane(!(ws ^ xs), !(ws ^ we), !(xs ^ xe), k) - Lane(ws ^ xs, !(ws ^ we), !(xs ^ xe), k)
         == Product(ws, we, xs, xe, k)
  {
    hide Bit, Lane, Decode, Magnitude;
    LaneValue(!(ws ^ xs), !(ws ^ we), !(xs ^ xe), k);
    LaneValue(ws ^ xs, !(ws ^ we), !(xs ^ xe), k);
    XorBit(ws, xs, k);
    XnorBit(ws, xs, k);
    XnorBit(ws, we, k);
    XnorBit(xs, xe, k);
    DecodeProduct(Bit(ws, k), Bit(we, k), Bit(xs, k), Bit(xe, k));
  }

  function EightProducts(ws: bv8, we: bv8, xs: bv8, xe: bv8): int {
    Product(ws, we, xs, xe, 0) + Product(ws, we, xs, xe, 1) + Product(ws, we, xs, xe, 2) + Product(ws, we, xs, xe, 3)
    + Product(ws, we, xs, xe, 4) + Product(ws, we, xs, xe, 5) + Product(ws, we, xs, xe, 6) + Product(ws, we, xs, xe, 7)
  }

  /** The eight population counts of a byte give the sum of its eight products. */
  lemma ByteStep(ws: bv8, we: bv8, xs: bv8, xe: bv8)
    ensures PosContrib(ws, we, xs, xe) - NegContrib(ws, we, xs, xe) == EightProducts(ws, we, xs, xe)
  {
    hide Bit, Lane, Product, Weighted;
    WeightedByLanes(!(ws ^ xs), !(ws ^ we), !(xs ^ xe));
    WeightedByLanes(ws ^ xs, !(ws ^ we), !(xs ^ xe));
    LaneIsProduct(ws, we, xs, xe, 0);
    LaneIsProduct(ws, we, xs, xe, 1);
    LaneIsProduct(ws, we, xs, xe, 2);
    LaneIsProduct(ws, we, xs, xe, 3);
    LaneIsProduct(ws, we, xs, xe, 4);
    LaneIsProduct(ws, we, xs, xe, 5);
    LaneIsProduct(ws, we, xs, xe, 6);
    LaneIsProduct(ws, we, xs, xe, 7);
  }

  lemma ByteBound(ws: bv8, we: bv8, xs: bv8, xe: bv8)
    ensures -32 <= EightProducts(ws, we, xs, xe) <= 32
  {
    hide Product, Bit, Decode;
  }

  lemma WeightedByLanes(p: bv8, w: bv8, x: bv8)
    ensures Weighted(p, w, x)
         == Lane(p, w, x, 0) + Lane(p, w, x, 1) + Lane(p, w, x, 2) + Lane(p, w, x, 3)
            + Lane(p, w, x, 4) + Lane(p, w, x, 5) + Lane(p, w, x, 6) + Lane(p, w, x, 7)
  {
    hide BitValue;
  }

  /** Extending a dot product by one byte of activations adds that byte's eight products. */
  lemma DotByByte(sign: seq<bv8>, extra: seq<bv8>, base: nat, xSign: seq<bv8>, xExtra: seq<bv8>, b: nat, n: nat)
    requires b < |xSign| && b < |xExtra| && base + b < |sign| && base + b < |extra|
    requires 8 * b + 8 <= n <= 8 * |xSign| && n <= 8 * |xExtra|
    ensures var x := Codes(xSign, xExtra, n);
            Dot(sign, extra, 8 * base, x, 8 * b + 8)
            == Dot(sign, extra, 8 * base, x, 8 * b) + EightProducts(sign[base + b], extra[base + b], xSign[b], xExtra[b])
  {
    hide Product, Dot;
    var x := Codes(xSign, xExtra, n);
    DotStep(sign, extra, base, xSign, xExtra, b, n, 0);
    DotStep(sign, extra, base, xSign, xExtra, b, n, 1);
    DotStep(sign, extra, base, xSign, xExtra, b, n, 2);
    DotStep(sign, extra, base, xSign, xExtra, b, n, 3);
    DotStep(sign, extra, base, xSign, xExtra, b, n, 4);
    DotStep(sign, extra, base, xSign, xExtra, b, n, 5);
    DotStep(sign, extra, base, xSign, xExtra, b, n, 6);
    DotStep(sign, extra, base, xSign, xExtra, b, n, 7);
  }

  lemma DotStep(sign: seq<bv8>, extra: seq<bv8>, base: nat, xSign: seq<bv8>, xExtra: seq<bv8>, b: nat, n: nat, k: nat)
    requires b < |xSign| && b < |xExtra| && base + b < |sign| && base + b < |extra|
    requires 8 * b + 8 <= n <= 8 * |xSign| && n <= 8 * |xExtra| && k < 8
    ensures var x := Codes(xSign, xExtra, n);
            Dot(sign, extra, 8 * base, x, 8 * b + k + 1)
            == Dot(sign, extra, 8 * base, x, 8 * b + k) + Product(sign[base + b], extra[base + b], xSign[b], xExtra[b], k)
  {
    hide Bit, Decode;
    ByteAndBit(b, k);
    ByteAndBit(base + b, k);
    assert 8 * base + (8 * b + k) == 8 * (base + b) + k;
  }

  lemma ByteAndBit(b: nat, k: nat)
    requires k < 8
    ensures (8 * b + k) / 8 == b && (8 * b + k) % 8 == k
  {
  }

  // ----- the kernels

  /** Two's-complement 32-bit truncation. */
  function WrapI32(n: int): (w: int)
    ensures -0x8000_0000 <= n < 0x8000_0000 ==> w == n
  {
    (n + 0x8000_0000) % 0x1_0000_0000 - 0x8000_0000
  }

  /**
    One row of `nda_gemv_v2_quad_quantized`: the i32 accumulator never wraps and is the exact dot
    product over all the bits the row's bytes hold, padding bits included.
   */
  method PopcountRow<F>(m: NdaMatrix<F>, xSign: seq<bv8>, xExtra: seq<bv8>, row: nat) returns (acc: int)
    requires RowStrided(m) && row < m.rows
    requires |xSign| == |xExtra| == Stride(m.cols)
    requires 8 * Stride(m.cols) < 0x2000_0000
    ensures var n := 8 * Stride(m.cols);
            acc == RowDot(m, row, Codes(xSign, xExtra, n), n)
    ensures -4 * 8 * Stride(m.cols) <= acc <= 4 * 8 * Stride(m.cols)
  {
    hide PosContrib, NegContrib, EightProducts, Bit, WrapI32, CodeAt;
    RowInBounds(m, row);
    var stride := Stride(m.cols);
    var base := row * stride;
    ghost var x := Codes(xSign, xExtra, 8 * stride);
    acc := 0;
    for b := 0 to stride
      invariant acc == Dot(m.sign, m.extra, 8 * base, x, 8 * b)
      invariant -32 * b <= acc <= 32 * b
    {
      var ws, we := m.sign[base + b], m.extra[base + b];
      var xs, xe := xSign[b], xExtra[b];
      ByteStep(ws, we, xs, xe);
      ByteBound(ws, we, xs, xe);
      DotByByte(m.sign, m.extra, base, xSign, xExtra, b, 8 * stride);
      acc := WrapI32(acc + (PosContrib(ws, we, xs, xe) - NegContrib(ws, we, xs, xe)));
    }
  }

  /**
    One row of `nda_gemv_v2_i8`: conditional negation and doubling give the exact dot product, for
    activations no larger than `bound` and rows short enough for the i32 accumulator.
   */
  method I8Row<F>(m: NdaMatrix<F>, q: seq<int>, row: nat, ghost bound: int) returns (acc: int)
    requires bound >= 0 && RowStrided(m) && row < m.rows
    requires |q| == m.cols
    requires forall j :: 0 <= j < |q| ==> -bound <= q[j] <= bound
    requires 2 * bound * m.cols < 0x8000_0000
    ensures acc == RowDot(m, row, q, m.cols)
  {
    hide PosContrib, NegContrib, Bit, WrapI32, CodeAt, Dot, Stride;
    RowInBounds(m, row);
    var stride := Stride(m.cols);
    var base := row * stride;
    acc := 0;
    DotEmpty(m.sign, m.extra, 8 * base, q);
    for b := 0 to stride
      invariant acc == Dot(m.sign, m.extra, 8 * base, q, if 8 * b < m.cols then 8 * b else m.cols)
    {
      var bitStart := 8 * b;
      var bitEnd := (if bitStart + 8 < m.cols then bitStart + 8 else m.cols) - bitStart;
      for bit := 0 to bitEnd
        invariant acc == Dot(m.sign, m.extra, 8 * base, q, bitStart + bit)
      {
        var s := Bit(m.sign[base + b], bit);
        var e := Bit(m.extra[base + b], bit);
        var qi := q[bitStart + bit];
        var contrib := if s then qi else -qi;
        I8Step(m, q, base, b, bit, contrib);
        I8NoWrap(m.sign, m.extra, 8 * base, q, bitStart + bit, bound, contrib);
        acc := WrapI32(acc + contrib);
        if s == e {
          acc := WrapI32(acc + contrib);
        }
      }
    }
  }

  lemma DotEmpty(sign: seq<bv8>, extra: seq<bv8>, base: nat, x: seq<int>)
    requires base <= 8 * |sign| && base <= 8 * |extra|
    ensures Dot(sign, extra, base, x, 0) == 0
  {
  }

  /** Weights are at most 2 in magnitude, so a dot product of `n` terms is at most `2 * bound * n`. */
  lemma {:induction false} DotBound(sign: seq<bv8>, extra: seq<bv8>, base: nat, x: seq<int>, n: nat, bound: int)
    requires bound >= 0 && n <= |x| && base + n <= 8 * |sign| && base + n <= 8 * |extra|
    requires forall j :: 0 <= j < |x| ==> -bound <= x[j] <= bound
    ensures -(2 * bound * n) <= Dot(sign, extra, base, x, n) <= 2 * bound * n
  {
    if n > 0 {
      hide CodeAt;
      DotBound(sign, extra, base, x, n - 1, bound);
      TermBound(CodeAt(sign, extra, base + n - 1), x[n - 1], bound);
      BoundStep(bound, n);
    }
  }

  lemma BoundStep(bound: int, n: nat)
    requires n > 0
    ensures 2 * bound * n == 2 * bound * (n - 1) + 2 * bound
  {
  }

  lemma TermBound(w: int, v: int, bound: int)
    requires w in {-2, -1, 1, 2} && -bound <= v <= bound
    ensures -(2 * bound) <= w * v <= 2 * bound
  {
  }

  lemma RoomLeft(bound: int, n: nat, cols: nat)
    requires bound >= 0 && n < cols
    ensures 2 * bound * n + 2 * bound <= 2 * bound * cols
  {
    assert 2 * bound * (n + 1) <= 2 * bound * cols;
  }

  /** One or two contributions more still fit an i32. */
  lemma I8NoWrap(sign: seq<bv8>, extra: seq<bv8>, base: nat, x: seq<int>, n: nat, bound: int, contrib: int)
    requires bound >= 0 && n < |x| && base + n <= 8 * |sign| && base + n <= 8 * |extra| && 2 * bound * |x| < 0x8000_0000
    requires (forall j :: 0 <= j < |x| ==> -bound <= x[j] <= bound) && -bound <= contrib <= bound
    ensures var d := Dot(sign, extra, base, x, n);
            -0x8000_0000 <= d + contrib < 0x8000_0000 && -0x8000_0000 <= d + 2 * contrib < 0x8000_0000
  {
    hide Dot;
    DotBound(sign, extra, base, x, n, bound);
    RoomLeft(bound, n, |x|);
  }

  lemma I8Step<F>(m: NdaMatrix<F>, q: seq<int>, base: nat, b: nat, bit: nat, contrib: int)
    requires base + b < |m.sign| && base + b < |m.extra| && bit < 8 && 8 * b + bit < |q|
    requires contrib == if Bit(m.sign[base + b], bit) then q[8 * b + bit] else -q[8 * b + bit]
    ensures var large := Bit(m.sign[base + b], bit) == Bit(m.extra[base + b], bit);
            Dot(m.sign, m.extra, 8 * base, q, 8 * b + bit + 1)
            == Dot(m.sign, m.extra, 8 * base, q, 8 * b + bit) + (if large then 2 * contrib else contrib)
  {
    hide Bit;
    ByteAndBit(base + b, bit);
    assert 8 * base + (8 * b + bit) == 8 * (base + b) + bit;
  }

  // ----- the same sums, said of the weights the planes spell

  /** Values in {-2,-1,1,2}: the sign bit is set for positive ones, the extra bit for 2 and -1. */
  predicate SpellsQuad(sign: seq<bv8>, extra: seq<bv8>, base: nat, w: seq<int>) {
    && base + |w| <= 8 * |sign| && base + |w| <= 8 * |extra|
    && forall j :: 0 <= j < |w| ==> SpellsCode(sign, extra, base + j, w[j])
  }

  predicate SpellsCode(sign: seq<bv8>, extra: seq<bv8>, i: nat, w: int)
    requires i < 8 * |sign| && i < 8 * |extra|
  {
    && w in {-2, -1, 1, 2}
    && (sign[i / 8] as int / Power(i % 8) % 2 == 1 <==> w > 0)
    && (extra[i / 8] as int / Power(i % 8) % 2 == 1 <==> w == 2 || w == -1)
  }

  function Products(w: seq<int>, x: seq<int>, n: nat): int
    requires n <= |w| && n <= |x|
  {
    if n == 0 then 0 else Products(w, x, n - 1) + w[n - 1] * x[n - 1]
  }

  lemma CodeIsSpelled(sign: seq<bv8>, extra: seq<bv8>, i: nat, w: int)
    requires i < 8 * |sign| && i < 8 * |extra| && SpellsCode(sign, extra, i, w)
    ensures CodeAt(sign, extra, i) == w
  {
    hide Bit, Power;
    BitIsDigit(sign[i / 8], i % 8);
    BitIsDigit(extra[i / 8], i % 8);
  }

  /** The dot product over the planes is that of the weights they spell. */
  lemma {:induction false} DotIsProducts(sign: seq<bv8>, extra: seq<bv8>, base: nat, w: seq<int>, x: seq<int>, n: nat)
    requires SpellsQuad(sign, extra, base, w) && n <= |w| && n <= |x|
    ensures Dot(sign, extra, base, x, n) == Products(w, x, n)
  {
    hide CodeAt, SpellsCode;
    if n > 0 {
      DotIsProducts(sign, extra, base, w, x, n - 1);
      CodeIsSpelled(sign, extra, base + n - 1, w[n - 1]);
    }
  }

  /** The popcount kernel on planes that spell `w` (at row `row`, byte-strided) and `v`. */
  method PopcountRowOf<F>(m: NdaMatrix<F>, xSign: seq<bv8>, xExtra: seq<bv8>, row: nat, ghost w: seq<int>, ghost v: seq<int>)
    returns (acc: int)
    requires RowStrided(m) && row < m.rows && |xSign| == |xExtra| == Stride(m.cols)
    requires 8 * Stride(m.cols) < 0x2000_0000 && |w| == |v| == 8 * Stride(m.cols)
    requires SpellsQuad(m.sign, m.extra, 8 * (row * Stride(m.cols)), w) && SpellsQuad(xSign, xExtra, 0, v)
    ensures acc == Products(w, v, |v|)
  {
    hide Dot, CodeAt, SpellsCode, Products, Stride;
    acc := PopcountRow(m, xSign, xExtra, row);
    var x := Codes(xSign, xExtra, |v|);
    forall j | 0 <= j < |v| ensures x[j] == v[j] { CodeIsSpelled(xSign, xExtra, 0 + j, v[j]); }
    assert x == v;
    DotIsProducts(m.sign, m.extra, 8 * (row * Stride(m.cols)), w, v, |v|);
  }

  /** The INT8 kernel on a row that spells `w`. */
  method I8RowOf<F>(m: NdaMatrix<F>, q: seq<int>, row: nat, ghost w: seq<int>) returns (acc: int)
    requires RowStrided(m) && row < m.rows && |q| == |w| == m.cols && m.cols < 0x80_0000
    requires forall j :: 0 <= j < |q| ==> -127 <= q[j] <= 127
    requires SpellsQuad(m.sign, m.extra, 8 * (row * Stride(m.cols)), w)
    ensures acc == Products(w, q, |q|)
  {
    hide Dot, CodeAt, SpellsCode, Products, Stride;
    acc := I8Row(m, q, row, 127);
    DotIsProducts(m.sign, m.extra, 8 * (row * Stride(m.cols)), w, q, |q|);
  }
}
