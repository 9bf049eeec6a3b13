/** What the v2 path of `nda_gemv` computes end to end: exactness, padding, and the real error bound. */
module QuadPipeline {
  import opened Arith
  import opened Matrix
  import opened QuadKernel
  import opened Quantizer

  // ----- padding

  /** The weights stored past the last column of a row, summed up to element `n` of the row. */
  function PadWeight<F>(m: NdaMatrix<F>, row: nat, n: nat): int
    requires RowStrided(m) && row < m.rows && n <= 8 * Stride(m.cols)
  {
    if n <= m.cols then 0
    else PadWeight(m, row, n - 1) + RowCode(m, row, n - 1)
  }

  /** Zero padding in the activations decodes to -2, so the row picks up minus twice its padding weights. */
  lemma {:induction false} PaddedDot<F>(m: NdaMatrix<F>, row: nat, x: seq<int>, n: nat)
    requires RowStrided(m) && row < m.rows && m.cols <= n <= |x| && n <= 8 * Stride(m.cols)
    requires forall j :: m.cols <= j < |x| ==> x[j] == -2
    ensures RowDot(m, row, x, n) == RowDot(m, row, x, m.cols) - 2 * PadWeight(m, row, n)
  {
    hide RowCode, RowDot, Stride;
    if n > m.cols {
      PaddedDot(m, row, x, n - 1);
      RowDotStep(m, row, x, n);
    }
  }

  /**
    The popcount accumulator is the dot product over the row's columns exactly when the row's padding
    weights cancel: always for byte-aligned rows, never when one padding bit is left.
   */
  lemma ExactIffPaddingCancels<F>(m: NdaMatrix<F>, row: nat, x: seq<int>)
    requires RowStrided(m) && row < m.rows && |x| == 8 * Stride(m.cols)
    requires forall j :: m.cols <= j < |x| ==> x[j] == -2
    ensures RowDot(m, row, x, |x|) == RowDot(m, row, x, m.cols) <==> PadWeight(m, row, |x|) == 0
    ensures m.cols % 8 == 0 ==> PadWeight(m, row, |x|) == 0
    ensures m.cols % 8 == 7 ==> PadWeight(m, row, |x|) != 0
  {
    hide RowCode, RowDot;
    PaddedDot(m, row, x, |x|);
  }

  /** The two v2 kernels agree on every byte-aligned row. */
  method BothKernels<F>(m: NdaMatrix<F>, xSign: seq<bv8>, xExtra: seq<bv8>, row: nat) returns (fast: int, plain: int)
    requires RowStrided(m) && m.cols % 8 == 0 && m.cols < 0x2000_0000
    requires |xSign| == |xExtra| == Stride(m.cols) && row < m.rows
    ensures fast == plain == RowDot(m, row, Codes(xSign, xExtra, m.cols), m.cols)
  {
    hide RowDot, CodeAt;
    fast := PopcountRow(m, xSign, xExtra, row);
    plain := I8Row(m, Codes(xSign, xExtra, m.cols), row, 2);
  }

  // ----- the real product and its error

  /** The true product of a row's weights (before scaling) with the real activations. */
  function RealDot<F>(m: NdaMatrix<F>, row: nat, x: seq<real>, n: nat): real
    requires RowStrided(m) && row < m.rows && n <= |x| && n <= 8 * Stride(m.cols)
  {
    if n == 0 then 0.0
    else RealDot(m, row, x, n - 1) + RowCode(m, row, n - 1) as real * x[n - 1]
  }

  lemma TermError(w: int, c: int, v: real, s: real, e: real)
    requires w in CODEBOOK && Abs(v - Level(s, c)) <= e
    ensures Abs(Level(s, w * c) - w as real * v) <= 2.0 * e
  {
    hide Level;
    assert Level(s, -2 * c) == -2.0 * Level(s, c) && Level(s, -1 * c) == -Level(s, c)
        && Level(s, 1 * c) == Level(s, c) && Level(s, 2 * c) == 2.0 * Level(s, c) by { LevelScaled(s, c); }
  }

  lemma LevelScaled(s: real, c: int)
    ensures Level(s, -2 * c) == -2.0 * Level(s, c) && Level(s, -1 * c) == -Level(s, c)
    ensures Level(s, 1 * c) == Level(s, c) && Level(s, 2 * c) == 2.0 * Level(s, c)
  {
  }

  lemma LevelSum(s: real, a: int, b: int)
    ensures Level(s, a + b) == Level(s, a) + Level(s, b)
  {
  }

  /** The error allowed to `n` columns whose activations are each within `e` of their codes. */
  function Tolerance(e: real, n: nat): real {
    2.0 * e * n as real
  }

  lemma ToleranceStep(e: real, n: nat)
    ensures Tolerance(e, n) == if n == 0 then 0.0 else Tolerance(e, n - 1) + 2.0 * e
  {
  }

  /** If every activation is within `e` of its code, a row is within `Tolerance` of the true product. */
  lemma {:induction false} RowError<F>(m: NdaMatrix<F>, row: nat, x: seq<real>, q: seq<int>, s: real, e: real, n: nat)
    requires RowStrided(m) && row < m.rows && n <= |x| && n <= |q| && n <= 8 * Stride(m.cols)
    requires forall j :: 0 <= j < n ==> Abs(x[j] - Level(s, q[j])) <= e
    ensures Abs(Level(s, RowDot(m, row, q, n)) - RealDot(m, row, x, n)) <= Tolerance(e, n)
  {
    hide RowCode, Level, RowDot, Tolerance;
    RowDotStep(m, row, q, n);
    ToleranceStep(e, n);
    if n == 0 {
      LevelScaled(s, 0);
    } else {
      RowError(m, row, x, q, s, e, n - 1);
      TermError(RowCode(m, row, n - 1), q[n - 1], x[n - 1], s, e);
      LevelSum(s, RowDot(m, row, q, n - 1), RowCode(m, row, n - 1) * q[n - 1]);
    }
  }

  /** The dequantised output `(acc as f32) * (matrix.scale * act_scale)`. */
  function Rescale(acc: int, matrixScale: real, actScale: real): real {
    acc as real * (matrixScale * actScale)
  }

  lemma ScaledError(acc: int, s: real, k: real, truth: real, bound: real)
    requires Abs(Level(s, acc) - truth) <= bound
    ensures Abs(Rescale(acc, k, s) - k * truth) <= Abs(k) * bound
  {
    var d := Level(s, acc) - truth;
    assert Rescale(acc, k, s) - k * truth == k * d;
    assert Abs(k * d) == Abs(k) * Abs(d);
    assert Abs(k) * Abs(d) <= Abs(k) * bound;
  }

  /** `y` is the row's true product up to an error of `e` in each activation. */
  ghost predicate RowWithin(m: NdaMatrix<real>, x: seq<real>, row: nat, y: real, e: real)
    requires RowStrided(m) && row < m.rows && |x| == m.cols
  {
    Abs(y - m.scale * RealDot(m, row, x, m.cols)) <= Abs(m.scale) * Tolerance(e, m.cols)
  }

  lemma RowResult(m: NdaMatrix<real>, x: seq<real>, row: nat, q: seq<int>, s: real, e: real)
    requires RowStrided(m) && row < m.rows && |x| == |q| == m.cols
    requires forall j :: 0 <= j < m.cols ==> Abs(x[j] - Level(s, q[j])) <= e
    ensures RowWithin(m, x, row, Rescale(RowDot(m, row, q, m.cols), m.scale, s), e)
  {
    hide RowDot, RealDot, Tolerance, Level, Rescale;
    RowError(m, row, x, q, s, e, m.cols);
    ScaledError(RowDot(m, row, q, m.cols), s, m.scale, RealDot(m, row, x, m.cols), Tolerance(e, m.cols));
  }

  function QuadCodes(x: seq<real>): (q: seq<int>)
    ensures |q| == |x|
  {
    seq(|x|, j requires 0 <= j < |x| => QuadCode(x[j], QuadScale(x)))
  }

  /**
    `nda_gemv` on a v2 matrix: quantise, multiply by popcounts, rescale. Every row is the rescaled dot
    product of its weights with nearest codes, shifted by its padding weights; where those cancel it is
    within one activation scale per column of the true product.
   */
  method GemvQuad(m: NdaMatrix<real>, x: seq<real>) returns (out: seq<real>)
    requires RowStrided(m) && |x| == m.cols && 8 * Stride(m.cols) < 0x2000_0000
    ensures |out| == m.rows
    ensures forall row :: 0 <= row < m.rows ==>
      out[row] == Rescale(RowDot(m, row, QuadCodes(x), m.cols) - 2 * PadWeight(m, row, 8 * Stride(m.cols)),
                          m.scale, QuadScale(x))
    ensures forall row :: 0 <= row < m.rows && PadWeight(m, row, 8 * Stride(m.cols)) == 0 ==>
      RowWithin(m, x, row, out[row], QuadScale(x))
    ensures forall i :: 0 <= i < |x| && Largest(x, i) && !(-0.00000001 < x[i] < 0.00000001) ==>
      QuadScale(x) == Abs(x[i]) / 2.0
  {
    hide CodeAt, Level, QuadCode, QuadScale, RowDot, RowWithin, Abs, Rescale, PadWeight;
    var xSign, xExtra, actScale := QuantizeQuad(x);
    var n := 8 * Stride(m.cols);
    ghost var codes, q := Codes(xSign, xExtra, n), QuadCodes(x);
    CodesClose(x, q, actScale);
    var outs := new real[m.rows];
    for row := 0 to m.rows
      invariant forall r :: 0 <= r < row ==>
        && outs[r] == Rescale(RowDot(m, r, q, m.cols) - 2 * PadWeight(m, r, n), m.scale, actScale)
        && (PadWeight(m, r, n) == 0 ==> RowWithin(m, x, r, outs[r], actScale))
    {
      var acc := PopcountRow(m, xSign, xExtra, row);
      PaddedDot(m, row, codes, n);
      RowDotPrefix(m, row, codes, q, m.cols);
      RowResult(m, x, row, q, actScale, actScale);
      outs[row] := Rescale(acc, m.scale, actScale);
    }
    out := outs[..];
    forall i | 0 <= i < |x| && Largest(x, i) && !(-0.00000001 < x[i] < 0.00000001)
      ensures QuadScale(x) == Abs(x[i]) / 2.0
    {
      HalfRangeIs(x, i);
    }
  }

  lemma HalfRangeIs(x: seq<real>, i: nat)
    requires i < |x| && Largest(x, i) && !(-0.00000001 < x[i] < 0.00000001)
    ensures QuadScale(x) == Abs(x[i]) / 2.0
  {
    hide QuadScale;
    QuadScaleIs(x, i);
  }

  lemma {:induction false} RowDotPrefix<F>(m: NdaMatrix<F>, row: nat, x: seq<int>, y: seq<int>, n: nat)
    requires RowStrided(m) && row < m.rows && n <= |x| && n <= |y| && n <= 8 * Stride(m.cols)
    requires forall j :: 0 <= j < n ==> x[j] == y[j]
    ensures RowDot(m, row, x, n) == RowDot(m, row, y, n)
  {
    hide RowDot, RowCode, Stride;
    RowDotStep(m, row, x, n);
    RowDotStep(m, row, y, n);
    if n > 0 {
      RowDotPrefix(m, row, x, y, n - 1);
    }
  }

  lemma CodesClose(x: seq<real>, q: seq<int>, s: real)
    requires s == QuadScale(x) && |q| == |x|
    requires forall j :: 0 <= j < |x| ==> q[j] == QuadCode(x[j], s)
    ensures forall j :: 0 <= j < |x| ==> Abs(x[j] - Level(s, q[j])) <= s
  {
    hide Level, QuadCode, QuadScale;
    forall j | 0 <= j < |x|
      ensures Abs(x[j] - Level(s, q[j])) <= s
    {
      WithinScale(x, j);
      QuadCodeIsNearest(x[j], s);
    }
  }

  // ----- INT8 activations

  function Clamp(n: int, lo: int, hi: int): int
    requires lo <= hi
  {
    if n < lo then lo else if n > hi then hi else n
  }

  function I8Scale(x: seq<real>): (s: real)
    ensures s > 0.0
  {
    if AMax(x) < TINY then 1.0 else AMax(x) / 127.0
  }

  function I8Code(v: real, s: real): (q: int)
    requires s > 0.0
    ensures -127 <= q <= 127
  {
    Clamp(Round(v * (1.0 / s)), -127, 127)
  }

  /** `quantize_activations_i8`. */
  function QuantizeI8(x: seq<real>): (q: seq<int>)
    ensures |q| == |x|
    ensures forall j :: 0 <= j < |q| ==> -127 <= q[j] <= 127
  {
    if AMax(x) < TINY then seq(|x|, _ => 0)
    else seq(|x|, j requires 0 <= j < |x| => I8Code(x[j], I8Scale(x)))
  }

  lemma I8CodeClose(v: real, s: real)
    requires s > 0.0 && Abs(v) <= 127.0 * s
    ensures Abs(v - Level(s, I8Code(v, s))) <= s / 2.0
  {
    var t := v * (1.0 / s);
    assert t * s == v;
    RatioBound(v, t, s);
    RoundClose(t);
    RoundInRange(t);
    assert I8Code(v, s) == Round(t);
    StepError(t, Round(t), s);
  }

  /** Clamping never loses anything, so every INT8 code is within half a step of its activation. */
  lemma I8HalfStep(x: seq<real>, j: nat)
    requires j < |x|
    ensures Abs(x[j] - Level(I8Scale(x), QuantizeI8(x)[j])) <= I8Scale(x) / 2.0
  {
    hide I8Code;
    if AMax(x) >= TINY {
      I8CodeClose(x[j], I8Scale(x));
    }
  }

  lemma RatioBound(v: real, t: real, s: real)
    requires s > 0.0 && t * s == v && Abs(v) <= 127.0 * s
    ensures -127.0 <= t <= 127.0
  {
    assert (t - 127.0) * s <= 0.0;
    assert (t + 127.0) * s >= 0.0;
  }

  lemma RoundInRange(t: real)
    requires -127.0 <= t <= 127.0
    ensures -127 <= Round(t) <= 127
  {
  }

  lemma StepError(t: real, n: int, s: real)
    requires s > 0.0 && Abs(t - n as real) <= 0.5
    ensures Abs(t * s - Level(s, n)) <= s / 2.0
  {
    var d := t - n as real;
    assert t * s - Level(s, n) == d * s;
    assert -0.5 * s <= d * s <= 0.5 * s;
  }

  /** The INT8 scale, told from any element of largest magnitude. */
  lemma I8ScaleIs(x: seq<real>, i: nat)
    requires i < |x| && Largest(x, i)
    ensures I8Scale(x) == if -0.00000001 < x[i] < 0.00000001 then 1.0 else if x[i] > 0.0 then x[i] / 127.0 else -x[i] / 127.0
  {
    hide AMax;
    LargestIsAMax(x, i);
  }

  /**
    The INT8 codes outright: all zero below the threshold, otherwise the activation over the scale rounded to
    nearest, halves away from zero; the clamp never acts.
   */
  lemma I8CodesAre(x: seq<real>, i: nat, j: nat, t: real)
    requires i < |x| && Largest(x, i) && j < |x| && t * I8Scale(x) == x[j]
    ensures QuantizeI8(x)[j] == if -0.00000001 < x[i] < 0.00000001 then 0 else Round(t)
  {
    hide AMax, Round;
    LargestIsAMax(x, i);
    var s := I8Scale(x);
    if AMax(x) >= TINY {
      RatioBound(x[j], t, s);
      I8CodeRounds(x[j], s, t);
    }
  }

  lemma I8CodeRounds(v: real, s: real, t: real)
    requires s > 0.0 && t * s == v && -127.0 <= t <= 127.0
    ensures I8Code(v, s) == Round(t)
  {
    var u := v * (1.0 / s);
    SameRatio(t, u, s, v);
    RoundWithin(u);
    assert I8Code(v, s) == Round(u);
  }

  lemma HalfStepIs(x: seq<real>, i: nat)
    requires i < |x| && Largest(x, i) && !(-0.00000001 < x[i] < 0.00000001)
    ensures I8Scale(x) / 2.0 == Abs(x[i]) / 254.0
  {
    hide I8Scale;
    I8ScaleIs(x, i);
  }

  lemma SameRatio(t: real, u: real, s: real, v: real)
    requires s > 0.0 && t * s == v && u == v * (1.0 / s)
    ensures t == u
  {
    assert u * s == v;
    assert (t - u) * s == 0.0;
  }

  lemma RoundWithin(t: real)
    requires -127.0 <= t <= 127.0
    ensures -127 <= Round(t) <= 127
  {
    RoundInRange(t);
  }

  /** An activation of largest magnitude is coded 127 or -127, without error. */
  lemma LargestI8Exact(x: seq<real>, i: nat)
    requires i < |x| && Largest(x, i) && (x[i] >= 0.00000001 || x[i] <= -0.00000001)
    ensures QuantizeI8(x)[i] == (if x[i] > 0.0 then 127 else -127)
    ensures Level(I8Scale(x), QuantizeI8(x)[i]) == x[i]
  {
    hide I8Scale, QuantizeI8;
    I8ScaleIs(x, i);
    var t := if x[i] > 0.0 then 127.0 else -127.0;
    I8CodesAre(x, i, i, t);
    RoundIs(t, if x[i] > 0.0 then 127 else -127);
  }

  /** The INT8 path: quantise, multiply by conditional adds, rescale; twice as precise per step. */
  method GemvI8(m: NdaMatrix<real>, x: seq<real>) returns (out: seq<real>)
    requires RowStrided(m) && |x| == m.cols && m.cols < 0x80_0000
    ensures |out| == m.rows
    ensures forall row :: 0 <= row < m.rows ==>
      out[row] == Rescale(RowDot(m, row, QuantizeI8(x), m.cols), m.scale, I8Scale(x))
    ensures forall row :: 0 <= row < m.rows ==> RowWithin(m, x, row, out[row], I8Scale(x) / 2.0)
    ensures forall row, i :: 0 <= row < m.rows && 0 <= i < |x| && Largest(x, i) && !(-0.00000001 < x[i] < 0.00000001) ==>
      RowWithin(m, x, row, out[row], Abs(x[i]) / 254.0)
  {
    hide CodeAt, Level, QuantizeI8, I8Scale, RowDot, RowWithin, Abs, Rescale;
    var q, actScale := QuantizeI8(x), I8Scale(x);
    ghost var half := actScale / 2.0;
    forall j | 0 <= j < |x| ensures Abs(x[j] - Level(actScale, q[j])) <= half { I8HalfStep(x, j); }
    var outs := new real[m.rows];
    for row := 0 to m.rows
      invariant forall r :: 0 <= r < row ==> RowWithin(m, x, r, outs[r], half)
      invariant forall r :: 0 <= r < row ==> outs[r] == Rescale(RowDot(m, r, q, m.cols), m.scale, actScale)
    {
      var acc := I8Row(m, q, row, 127);
      RowResult(m, x, row, q, actScale, half);
      outs[row] := Rescale(acc, m.scale, actScale);
    }
    out := outs[..];
    forall i | 0 <= i < |x| && Largest(x, i) && !(-0.00000001 < x[i] < 0.00000001)
      ensures half == Abs(x[i]) / 254.0
    {
      HalfStepIs(x, i);
    }
  }
}
