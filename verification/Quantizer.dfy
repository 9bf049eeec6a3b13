/** Activation quantisers and the error of the whole quantised product, in real arithmetic. */
module Quantizer {
  import opened Bits
  import opened QuadKernel

  function Abs(r: real): (a: real)
    ensures a >= 0.0
  {
    if r < 0.0 then -r else r
  }

  /** `x.iter().map(abs).fold(0.0, max)`. */
  function AMax(x: seq<real>): (m: real)
    ensures m >= 0.0
    ensures forall i :: 0 <= i < |x| ==> Abs(x[i]) <= m
  {
    if x == [] then 0.0
    else
      var rest, last := AMax(x[..|x| - 1]), Abs(x[|x| - 1]);
      if rest < last then last else rest
  }

  method ComputeAMax(x: seq<real>) returns (amax: real)
    ensures amax == AMax(x)
  {
    amax := 0.0;
    for i := 0 to |x|
      invariant amax == AMax(x[..i])
    {
      assert x[..i + 1][..i] == x[..i];
      if amax < Abs(x[i]) {
        amax := Abs(x[i]);
      }
    }
    assert x[..|x|] == x;
  }

  const TINY := 0.00000001

  function QuadScale(x: seq<real>): (s: real)
    ensures s > 0.0
  {
    if AMax(x) < TINY then 1.0 else AMax(x) / 2.0
  }

  /** Position `i` holds a largest magnitude. */
  predicate Largest(x: seq<real>, i: nat)
    requires i < |x|
  {
    forall j :: 0 <= j < |x| ==> (if x[i] >= 0.0 then -x[i] <= x[j] <= x[i] else x[i] <= x[j] <= -x[i])
  }

  /** The maximum is attained. */
  lemma {:induction false} AMaxAttained(x: seq<real>) returns (i: nat)
    requires x != []
    ensures i < |x| && Abs(x[i]) == AMax(x) && Largest(x, i)
  {
    var rest, last := x[..|x| - 1], x[|x| - 1];
    if rest == [] || AMax(rest) < Abs(last) {
      i := |x| - 1;
      assert rest == [] ==> AMax(rest) == 0.0;
    } else {
      i := AMaxAttained(rest);
      assert x[i] == rest[i];
    }
    assert AMax(x) == Abs(x[i]);
    forall j | 0 <= j < |x| ensures -Abs(x[i]) <= x[j] <= Abs(x[i]) { assert Abs(x[j]) <= AMax(x); }
    assert Largest(x, i);
  }

  lemma LargestIsAMax(x: seq<real>, i: nat)
    requires i < |x| && Largest(x, i)
    ensures AMax(x) == Abs(x[i])
  {
    var k := AMaxAttained(x);
    assert Abs(x[k]) <= Abs(x[i]);
  }

  /** The scale, told from any element of largest magnitude. */
  lemma QuadScaleIs(x: seq<real>, i: nat)
    requires i < |x| && Largest(x, i)
    ensures QuadScale(x) == if -0.00000001 < x[i] < 0.00000001 then 1.0 else if x[i] > 0.0 then x[i] / 2.0 else -x[i] / 2.0
  {
    hide AMax;
    LargestIsAMax(x, i);
  }

  predicate IsLarge(v: real, scale: real)
    requires scale > 0.0
  {
    Abs(v * (1.0 / scale)) >= 1.5
  }

  /** The code the quantiser stores for `v`. */
  function QuadCode(v: real, scale: real): int
    requires scale > 0.0
  {
    Decode(v >= 0.0, (v >= 0.0) == IsLarge(v, scale))
  }

  const CODEBOOK: set<int> := {-2, -1, 1, 2}

  /** The value a code stands for. */
  function Level(scale: real, code: int): real {
    scale * code as real
  }

  /** `code` is a value of the codebook closest to `v`. */
  ghost predicate Nearest(v: real, scale: real, code: int) {
    code in CODEBOOK && forall c :: c in CODEBOOK ==> Abs(v - Level(scale, code)) <= Abs(v - Level(scale, c))
  }

  /** Within the range the scale is chosen for, the stored code is nearest and off by at most one scale. */
  lemma QuadCodeIsNearest(v: real, scale: real)
    requires scale > 0.0 && Abs(v) <= 2.0 * scale
    ensures Nearest(v, scale, QuadCode(v, scale))
    ensures Abs(v - Level(scale, QuadCode(v, scale))) <= scale
  {
    hide IsLarge, Level;
    LargeMeansBeyond(v, scale);
    Levels(scale);
  }

  /** The code outright: the sign of the activation, zero counting as positive, and magnitude 2 from 1.5 scales on. */
  lemma QuadCodeIs(v: real, scale: real)
    requires scale > 0.0
    ensures QuadCode(v, scale) == if v >= 1.5 * scale then 2 else if v >= 0.0 then 1 else if v > -1.5 * scale then -1 else -2
  {
    hide IsLarge;
    LargeMeansBeyond(v, scale);
  }

  /** An activation of largest magnitude is coded 2 or -2, without error. */
  lemma LargestQuadExact(x: seq<real>, i: nat)
    requires i < |x| && Largest(x, i) && (x[i] >= 0.00000001 || x[i] <= -0.00000001)
    ensures QuadCode(x[i], QuadScale(x)) == (if x[i] > 0.0 then 2 else -2)
    ensures Level(QuadScale(x), QuadCode(x[i], QuadScale(x))) == x[i]
  {
    hide QuadScale, QuadCode;
    QuadScaleIs(x, i);
    QuadCodeIs(x[i], QuadScale(x));
    Levels(QuadScale(x));
  }

  lemma Levels(scale: real)
    ensures Level(scale, -2) == -2.0 * scale && Level(scale, -1) == -scale
    ensures Level(scale, 1) == scale && Level(scale, 2) == 2.0 * scale
  {
  }

  lemma LargeMeansBeyond(v: real, scale: real)
    requires scale > 0.0
    ensures IsLarge(v, scale) <==> Abs(v) >= 1.5 * scale
  {
    var t := v * (1.0 / scale);
    assert t * scale == v;
    LargeIsBeyond(v, t, scale);
  }

  lemma LargeIsBeyond(v: real, t: real, scale: real)
    requires scale > 0.0 && t * scale == v
    ensures Abs(t) >= 1.5 <==> Abs(v) >= 1.5 * scale
  {
    if Abs(t) >= 1.5 {
      assert Abs(t) * scale >= 1.5 * scale;
    } else {
      assert Abs(t) * scale < 1.5 * scale;
    }
  }

  lemma WithinScale(x: seq<real>, i: nat)
    requires i < |x|
    ensures Abs(x[i]) <= 2.0 * QuadScale(x)
  {
  }

  // ----- packing into bit planes

  /** Bits `[0, n)` of the planes hold the codes of `x`; every later bit is still zero. */
  ghost predicate Packed(sign: seq<bv8>, extra: seq<bv8>, x: seq<real>, scale: real, n: nat)
    requires scale > 0.0 && n <= |x|
  {
    && |sign| == |extra| == Stride(|x|)
    && (forall i :: 0 <= i < n ==>
          && Bit(sign[i / 8], i % 8) == (x[i] >= 0.0)
          && Bit(extra[i / 8], i % 8) == ((x[i] >= 0.0) == IsLarge(x[i], scale)))
    && (forall i :: n <= i < 8 * |sign| ==> !Bit(sign[i / 8], i % 8) && !Bit(extra[i / 8], i % 8))
  }

  function WithBit(plane: seq<bv8>, i: nat, on: bool): (r: seq<bv8>)
    requires i < 8 * |plane|
    ensures |r| == |plane|
  {
    if on then plane[i / 8 := plane[i / 8] | Mask(i % 8)] else plane
  }

  lemma WithBitAt(plane: seq<bv8>, i: nat, on: bool, j: nat)
    requires i < 8 * |plane| && j < 8 * |plane|
    ensures Bit(WithBit(plane, i, on)[j / 8], j % 8) == (Bit(plane[j / 8], j % 8) || (j == i && on))
  {
    hide Bit;
    if on && j / 8 == i / 8 {
      SetBit(plane[i / 8], i % 8, j % 8);
    }
  }

  lemma PackStep(sign: seq<bv8>, extra: seq<bv8>, x: seq<real>, scale: real, n: nat)
    requires scale > 0.0 && n < |x|
    requires Packed(sign, extra, x, scale, n)
    ensures Packed(WithBit(sign, n, x[n] >= 0.0),
                   WithBit(extra, n, (x[n] >= 0.0) == IsLarge(x[n], scale)), x, scale, n + 1)
  {
    hide Bit, IsLarge;
    var pos, ext := x[n] >= 0.0, (x[n] >= 0.0) == IsLarge(x[n], scale);
    forall j | 0 <= j < 8 * |sign|
      ensures Bit(WithBit(sign, n, pos)[j / 8], j % 8) == (Bit(sign[j / 8], j % 8) || (j == n && pos))
      ensures Bit(WithBit(extra, n, ext)[j / 8], j % 8) == (Bit(extra[j / 8], j % 8) || (j == n && ext))
    {
      WithBitAt(sign, n, pos, j);
      WithBitAt(extra, n, ext, j);
    }
  }

  /** `quantize_activations_v2_quad`: packs a nearest code per element and leaves the padding bits zero. */
  method QuantizeQuad(x: seq<real>) returns (sign: seq<bv8>, extra: seq<bv8>, scale: real)
    ensures scale == QuadScale(x)
    ensures |sign| == |extra| == Stride(|x|)
    ensures forall i :: 0 <= i < |x| ==> CodeAt(sign, extra, i) == QuadCode(x[i], scale)
    ensures forall i :: 0 <= i < |x| ==> Nearest(x[i], scale, CodeAt(sign, extra, i))
    ensures forall i :: |x| <= i < 8 * |sign| ==> CodeAt(sign, extra, i) == -2
  {
    hide Bit, IsLarge, Nearest, Packed, WithBit, CodeAt, QuadCode;
    var amax := ComputeAMax(x);
    scale := if amax < TINY then 1.0 else amax / 2.0;
    var signs := new bv8[Stride(|x|)](_ => 0);
    var extras := new bv8[Stride(|x|)](_ => 0);
    ZeroPlanes(signs[..], extras[..], x, scale);
    for i := 0 to |x|
      invariant signs.Length == extras.Length == Stride(|x|)
      invariant Packed(signs[..], extras[..], x, scale, i)
    {
      PackStep(signs[..], extras[..], x, scale, i);
      var signBit := x[i] >= 0.0;
      var extraBit := signBit == IsLarge(x[i], scale);
      SetBitIf(signs, i, signBit);
      SetBitIf(extras, i, extraBit);
    }
    sign, extra := signs[..], extras[..];
    PackedCodes(sign, extra, x, scale);
  }

  /** `if on { plane[i / 8] |= 1 << (i % 8) }`. */
  method SetBitIf(plane: array<bv8>, i: nat, on: bool)
    requires i < 8 * plane.Length
    modifies plane
    ensures plane[..] == WithBit(old(plane[..]), i, on)
  {
    if on {
      plane[i / 8] := plane[i / 8] | Mask(i % 8);
    }
  }

  lemma PackedCodes(sign: seq<bv8>, extra: seq<bv8>, x: seq<real>, scale: real)
    requires scale == QuadScale(x)
    requires Packed(sign, extra, x, scale, |x|)
    ensures forall i :: 0 <= i < |x| ==> CodeAt(sign, extra, i) == QuadCode(x[i], scale)
    ensures forall i :: 0 <= i < |x| ==> Nearest(x[i], scale, CodeAt(sign, extra, i))
    ensures forall i :: |x| <= i < 8 * |sign| ==> CodeAt(sign, extra, i) == -2
  {
    hide Bit, IsLarge, Nearest, QuadScale;
    forall i | 0 <= i < |x|
      ensures Nearest(x[i], scale, QuadCode(x[i], scale))
    {
      WithinScale(x, i);
      QuadCodeIsNearest(x[i], scale);
    }
  }

  lemma ZeroPlanes(sign: seq<bv8>, extra: seq<bv8>, x: seq<real>, scale: real)
    requires scale > 0.0 && |sign| == |extra| == Stride(|x|)
    requires forall i :: 0 <= i < |sign| ==> sign[i] == 0 && extra[i] == 0
    ensures Packed(sign, extra, x, scale, 0)
  {
    hide IsLarge;
    ZeroByte(0);
  }
}
