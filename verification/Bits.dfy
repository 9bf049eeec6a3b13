/** Bit planes: the single-byte operations the quantised kernels are built from. */
module Bits {
  import opened Arith

  /** The byte `1 << k`. */
  function Mask(k: nat): bv8
    requires k < 8
  {
    if k == 0 then 1 else if k == 1 then 2 else if k == 2 then 4 else if k == 3 then 8
    else if k == 4 then 16 else if k == 5 then 32 else if k == 6 then 64 else 128
  }

  /** Bit `k` of `b`, least significant first: `(b >> k) & 1`. */
  predicate Bit(b: bv8, k: nat)
    requires k < 8
  {
    b & Mask(k) != 0
  }

  function BitValue(b: bv8, k: nat): nat
    requires k < 8
  {
    if Bit(b, k) then 1 else 0
  }

  /** `u8::count_ones`. */
  function CountOnes(b: bv8): nat {
    BitValue(b, 0) + BitValue(b, 1) + BitValue(b, 2) + BitValue(b, 3)
    + BitValue(b, 4) + BitValue(b, 5) + BitValue(b, 6) + BitValue(b, 7)
  }

  /** `u8::trailing_zeros` of a non-zero byte. */
  function TrailingZeros(b: bv8): (k: nat)
    requires b != 0
    ensures k < 8 && Bit(b, k) && forall j :: 0 <= j < k ==> !Bit(b, j)
  {
    if b & 1 != 0 then 0 else if b & 2 != 0 then 1 else if b & 4 != 0 then 2
    else if b & 8 != 0 then 3 else if b & 16 != 0 then 4 else if b & 32 != 0 then 5
    else if b & 64 != 0 then 6 else 7
  }

  /** Bitwise operators act bit by bit. */
  lemma XorBit(a: bv8, b: bv8, k: nat)
    requires k < 8
    ensures Bit(a ^ b, k) <==> Bit(a, k) != Bit(b, k)
  {
    XorMask(a, b, Mask(k));
    assert Mask(k) in {1, 2, 4, 8, 16, 32, 64, 128};
  }

  lemma XorMask(a: bv8, b: bv8, m: bv8)
    ensures (a ^ b) & m == (a & m) ^ (b & m)
  {
  }

  lemma NotBit(a: bv8, k: nat)
    requires k < 8
    ensures Bit(!a, k) <==> !Bit(a, k)
  {
  }

  lemma AndBit(a: bv8, b: bv8, k: nat)
    requires k < 8
    ensures Bit(a & b, k) <==> Bit(a, k) && Bit(b, k)
  {
  }

  /** Setting bit `k` with `b |= 1 << k` changes that bit and no other. */
  lemma SetBit(b: bv8, k: nat, j: nat)
    requires k < 8 && j < 8
    ensures Bit(b | Mask(k), j) <==> j == k || Bit(b, j)
  {
  }

  /** `b & (b - 1)` clears the lowest set bit and no other. */
  lemma ClearLowestBit(b: bv8, j: nat)
    requires b != 0 && j < 8
    ensures Bit(b & (b - 1), j) <==> j != TrailingZeros(b) && Bit(b, j)
  {
  }

  /** A byte is zero exactly when it has no bit set. */
  lemma ZeroByte(b: bv8)
    ensures b == 0 <==> forall k :: 0 <= k < 8 ==> !Bit(b, k)
  {
    if forall k :: 0 <= k < 8 ==> !Bit(b, k) {
      assert !Bit(b, 0) && !Bit(b, 1) && !Bit(b, 2) && !Bit(b, 3)
          && !Bit(b, 4) && !Bit(b, 5) && !Bit(b, 6) && !Bit(b, 7);
    }
  }

  /** The weight of a bit. */
  function Power(k: nat): nat
    requires k < 8
  {
    [1, 2, 4, 8, 16, 32, 64, 128][k]
  }

  /** As an integer a byte is the sum of its bits, least significant first. */
  lemma ByteValue(b: bv8)
    ensures b as int == BitValue(b, 0) + 2 * BitValue(b, 1) + 4 * BitValue(b, 2) + 8 * BitValue(b, 3)
                        + 16 * BitValue(b, 4) + 32 * BitValue(b, 5) + 64 * BitValue(b, 6) + 128 * BitValue(b, 7)
  {
  }

  /** The digits below and above weight `w` in `n == lo + w * (d + 2 * hi)`. */
  lemma DigitAt(n: nat, lo: nat, d: nat, hi: nat, w: nat)
    requires lo < w && d < 2 && n == (d + 2 * hi) * w + lo
    ensures n / w % 2 == d
  {
    DivModUnique(n, d + 2 * hi, w, lo);
  }

  lemma EightDigits(d: seq<nat>, n: nat, k: nat)
    requires |d| == 8 && k < 8 && forall j :: 0 <= j < 8 ==> d[j] < 2
    requires n == d[0] + 2 * d[1] + 4 * d[2] + 8 * d[3] + 16 * d[4] + 32 * d[5] + 64 * d[6] + 128 * d[7]
    ensures n / Power(k) % 2 == d[k]
  {
    var lo4, hi4 := d[0] + 2 * d[1] + 4 * d[2] + 8 * d[3], d[4] + 2 * d[5] + 4 * d[6] + 8 * d[7];
    if k == 0 { DigitAt(n, 0, d[0], d[1] + 2 * d[2] + 4 * d[3] + 8 * hi4, 1); }
    else if k == 1 { DigitAt(n, d[0], d[1], d[2] + 2 * d[3] + 4 * hi4, 2); }
    else if k == 2 { DigitAt(n, d[0] + 2 * d[1], d[2], d[3] + 2 * hi4, 4); }
    else if k == 3 { DigitAt(n, d[0] + 2 * d[1] + 4 * d[2], d[3], hi4, 8); }
    else if k == 4 { DigitAt(n, lo4, d[4], d[5] + 2 * d[6] + 4 * d[7], 16); }
    else if k == 5 { DigitAt(n, lo4 + 16 * d[4], d[5], d[6] + 2 * d[7], 32); }
    else if k == 6 { DigitAt(n, lo4 + 16 * d[4] + 32 * d[5], d[6], d[7], 64); }
    else { DigitAt(n, lo4 + 16 * d[4] + 32 * d[5] + 64 * d[6], d[7], 0, 128); }
  }

  function Digits(b: bv8): (d: seq<nat>)
    ensures |d| == 8 && forall k :: 0 <= k < 8 ==> d[k] == BitValue(b, k) && d[k] < 2
  {
    [BitValue(b, 0), BitValue(b, 1), BitValue(b, 2), BitValue(b, 3),
     BitValue(b, 4), BitValue(b, 5), BitValue(b, 6), BitValue(b, 7)]
  }

  lemma ByteDigits(b: bv8, n: nat)
    requires n == b as int
    ensures var d := Digits(b);
            n == d[0] + 2 * d[1] + 4 * d[2] + 8 * d[3] + 16 * d[4] + 32 * d[5] + 64 * d[6] + 128 * d[7]
  {
    ByteValue(b);
    hide BitValue;
  }

  /** Bit `k` is the binary digit of weight `2^k`. */
  lemma BitIsDigit(b: bv8, k: nat)
    requires k < 8
    ensures Bit(b, k) <==> b as int / Power(k) % 2 == 1
  {
    hide Bit, Power, Digits;
    ByteDigits(b, b as int);
    EightDigits(Digits(b), b as int, k);
  }
}
