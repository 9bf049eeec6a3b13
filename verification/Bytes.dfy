/** Bytes, strings as UTF-8 bytes, and little-endian integers. */
module Bytes {

  type Byte = b: int | 0 <= b < 256

  datatype Option<+T> = None | Some(value: T)

  datatype Result<+T, +E> = Ok(value: T) | Err(error: E) {
    predicate IsFailure() { Err? }
    function PropagateFailure<U>(): Result<U, E>
      requires Err?
    {
      Err(error)
    }
    function Extract(): T
      requires Ok?
    {
      value
    }
  }

  // ----- UTF-8

  /** A string is the byte sequence Rust stores for it. */
  type Str = seq<Byte>

  predicate Continuation(s: seq<Byte>, i: nat) {
    i < |s| && 0x80 <= s[i] < 0xC0
  }

  /** Length of the well-formed UTF-8 scalar that starts `s`, or 0 if there is none (table 3-7 of the Unicode standard). */
  function ScalarLength(s: seq<Byte>): (n: nat)
    ensures n <= |s|
  {
    if s == [] then 0
    else if s[0] < 0x80 then 1
    else if 0xC2 <= s[0] < 0xE0 && Continuation(s, 1) then 2
    else if 0xE0 <= s[0] < 0xF0 && Continuation(s, 1) && Continuation(s, 2)
            && (s[0] == 0xE0 ==> s[1] >= 0xA0) && (s[0] == 0xED ==> s[1] < 0xA0) then 3
    else if 0xF0 <= s[0] < 0xF5 && Continuation(s, 1) && Continuation(s, 2) && Continuation(s, 3)
            && (s[0] == 0xF0 ==> s[1] >= 0x90) && (s[0] == 0xF4 ==> s[1] < 0x90) then 4
    else 0
  }

  /** What `String::from_utf8` accepts, and what every Rust `String` satisfies. */
  predicate ValidUtf8(s: seq<Byte>) {
    s == [] || (ScalarLength(s) > 0 && ValidUtf8(s[ScalarLength(s)..]))
  }

  /** An ASCII byte never belongs to a longer scalar. */
  lemma ScalarBeforeAscii(a: seq<Byte>, c: Byte, b: seq<Byte>)
    requires a != [] && c < 0x80
    ensures ScalarLength(a + [c] + b) == ScalarLength(a)
  {
    var s := a + [c] + b;
    assert forall i :: 0 <= i < |a| ==> s[i] == a[i];
    assert s[|a|] == c;
    assert !Continuation(s, |a|);
  }

  /** A string with an ASCII byte in it is valid exactly when both parts around that byte are. */
  lemma {:induction false} Utf8Split(a: seq<Byte>, c: Byte, b: seq<Byte>)
    requires c < 0x80
    ensures ValidUtf8(a + [c] + b) <==> ValidUtf8(a) && ValidUtf8(b)
    decreases |a|
  {
    var s := a + [c] + b;
    if a == [] {
      assert s[0] == c && s[1..] == b;
    } else {
      hide ScalarLength;
      ScalarBeforeAscii(a, c, b);
      var n := ScalarLength(a);
      if n > 0 {
        assert s[n..] == a[n..] + [c] + b;
        Utf8Split(a[n..], c, b);
      }
    }
  }

  // ----- little-endian integers

  function Pow256(k: nat): (p: nat)
    ensures p > 0
  {
    if k == 0 then 1 else 256 * Pow256(k - 1)
  }

  /** The low `k` bytes of `n`: an `as` cast to `k` bytes followed by `to_le_bytes`. */
  function LeBytes(n: nat, k: nat): (s: seq<Byte>)
    ensures |s| == k
  {
    if k == 0 then [] else [n % 256] + LeBytes(n / 256, k - 1)
  }

  /** `from_le_bytes`. */
  function FromLe(s: seq<Byte>): nat {
    if s == [] then 0 else s[0] + 256 * FromLe(s[1..])
  }

  /** A u32 length, then the bytes: `push_len_prefixed`, and every string of the binary stream. */
  function LenPrefixed(s: Str): seq<Byte> {
    LeBytes(|s|, 4) + s
  }

  lemma {:induction false} FromLeBound(s: seq<Byte>)
    ensures FromLe(s) < Pow256(|s|)
  {
    if s != [] {
      FromLeBound(s[1..]);
    }
  }

  /** Writing a value that fits and reading it back loses nothing. */
  lemma {:induction false} LeRoundTrip(n: nat, k: nat)
    requires n < Pow256(k)
    ensures FromLe(LeBytes(n, k)) == n
  {
    if k > 0 {
      LeRoundTrip(n / 256, k - 1);
      assert LeBytes(n, k)[1..] == LeBytes(n / 256, k - 1);
    }
  }

  lemma LowByte(b: Byte, n: nat)
    ensures (b + 256 * n) % 256 == b && (b + 256 * n) / 256 == n
  {
  }

  /** Reading bytes and writing the value back restores them. */
  lemma {:induction false} LeInverse(s: seq<Byte>)
    ensures LeBytes(FromLe(s), |s|) == s
  {
    if s != [] {
      LeInverse(s[1..]);
      LowByte(s[0], FromLe(s[1..]));
      assert s == [s[0]] + s[1..];
    }
  }

  const U16 := 0x1_0000
  const U32 := 0x1_0000_0000
  const U64 := 0x1_0000_0000_0000_0000

  type Word16 = n: nat | n < U16
  type Word32 = n: nat | n < U32
  type Word64 = n: nat | n < U64
  type Int64 = n: int | -0x8000_0000_0000_0000 <= n < 0x8000_0000_0000_0000

  lemma Widths()
    ensures Pow256(1) == 256 && Pow256(2) == U16 && Pow256(4) == U32 && Pow256(8) == U64
  {
    assert Pow256(3) == 256 * Pow256(2);
    assert Pow256(5) == 256 * Pow256(4);
    assert Pow256(6) == 256 * Pow256(5);
    assert Pow256(7) == 256 * Pow256(6);
  }

  /** The unsigned value with the same 64 bits as a signed one (`as u64`). */
  function I64Bits(n: Int64): Word64 {
    if n < 0 then n + U64 else n
  }

  /** The signed value with the same 64 bits as an unsigned one (`as i64`). */
  function BitsI64(u: Word64): (n: Int64)
    ensures I64Bits(n) == u
  {
    if u < 0x8000_0000_0000_0000 then u else u - U64
  }

  // ----- UTF-8 as the encodings of scalar values

  /** A Unicode scalar value: any code point but a surrogate. */
  predicate Scalar(c: nat) {
    c < 0xD800 || 0xE000 <= c < 0x11_0000
  }

  /** Its UTF-8 encoding (table 3-6 of the Unicode standard). */
  function Utf8(c: nat): (s: seq<Byte>)
    requires Scalar(c)
    ensures s != []
  {
    if c < 0x80 then [c]
    else if c < 0x800 then [0xC0 + c / 64, 0x80 + c % 64]
    else if c < 0x1_0000 then [0xE0 + c / 4096, 0x80 + c / 64 % 64, 0x80 + c % 64]
    else [0xF0 + c / 0x4_0000, 0x80 + c / 4096 % 64, 0x80 + c / 64 % 64, 0x80 + c % 64]
  }

  /** What starts a string and encodes a scalar value is recognised, with its length. */
  lemma EncodedScalar(c: nat, rest: seq<Byte>)
    requires Scalar(c)
    ensures ScalarLength(Utf8(c) + rest) == |Utf8(c)|
  {
    var s := Utf8(c) + rest;
    assert forall i :: 0 <= i < |Utf8(c)| ==> s[i] == Utf8(c)[i];
    if 0x800 <= c < 0x1_0000 {
      assert c / 4096 < 16;
    }
  }

  lemma TwoByteScalar(a: nat, b: nat)
    requires 2 <= a < 32 && b < 64
    ensures var c := 64 * a + b; 0x80 <= c < 0x800 && Utf8(c) == [0xC0 + a, 0x80 + b]
  {
  }

  lemma ThreeByteScalar(a: nat, b: nat, d: nat)
    requires a < 16 && b < 64 && d < 64 && (a == 0 ==> b >= 32) && (a == 13 ==> b < 32)
    ensures var c := 4096 * a + 64 * b + d;
            Scalar(c) && Utf8(c) == [0xE0 + a, 0x80 + b, 0x80 + d]
  {
    var c := 4096 * a + 64 * b + d;
    assert c / 64 == 64 * a + b && c / 4096 == a;
  }

  lemma FourByteScalar(a: nat, b: nat, d: nat, e: nat)
    requires a < 5 && b < 64 && d < 64 && e < 64 && (a == 0 ==> b >= 16) && (a == 4 ==> b < 16)
    ensures var c := 0x4_0000 * a + 4096 * b + 64 * d + e;
            Scalar(c) && Utf8(c) == [0xF0 + a, 0x80 + b, 0x80 + d, 0x80 + e]
  {
    var c := 0x4_0000 * a + 4096 * b + 64 * d + e;
    assert c / 64 == 4096 * a + 64 * b + d && c / 4096 == 64 * a + b && c / 0x4_0000 == a;
  }

  /** What is recognised encodes a scalar value. */
  lemma ScalarOf(s: seq<Byte>) returns (c: nat)
    requires ScalarLength(s) > 0
    ensures Scalar(c) && s[..ScalarLength(s)] == Utf8(c)
  {
    hide Utf8;
    var n := ScalarLength(s);
    if n == 1 {
      c := s[0];
      assert Utf8(c) == [s[0]] by { OneByteScalar(c); }
    } else if n == 2 {
      var a: nat, b: nat := s[0] - 0xC0, s[1] - 0x80;
      c := 64 * a + b;
      TwoByteScalar(a, b);
    } else if n == 3 {
      var a: nat, b: nat, d: nat := s[0] - 0xE0, s[1] - 0x80, s[2] - 0x80;
      c := 4096 * a + 64 * b + d;
      ThreeByteScalar(a, b, d);
    } else {
      var a: nat, b: nat, d: nat, e: nat := s[0] - 0xF0, s[1] - 0x80, s[2] - 0x80, s[3] - 0x80;
      c := 0x4_0000 * a + 4096 * b + 64 * d + e;
      FourByteScalar(a, b, d, e);
    }
  }

  lemma OneByteScalar(c: nat)
    requires c < 0x80
    ensures Utf8(c) == [c]
  {
  }

  function Utf8All(cs: seq<nat>): seq<Byte>
    requires forall i :: 0 <= i < |cs| ==> Scalar(cs[i])
  {
    if cs == [] then [] else Utf8(cs[0]) + Utf8All(cs[1..])
  }

  /** Every sequence of scalar values encodes to a valid string. */
  lemma {:induction false} EncodedIsValid(cs: seq<nat>)
    requires forall i :: 0 <= i < |cs| ==> Scalar(cs[i])
    ensures ValidUtf8(Utf8All(cs))
  {
    hide Utf8, ScalarLength;
    if cs != [] {
      var s := Utf8All(cs);
      EncodedScalar(cs[0], Utf8All(cs[1..]));
      assert s[|Utf8(cs[0])|..] == Utf8All(cs[1..]);
      EncodedIsValid(cs[1..]);
    }
  }

  /** Every valid string is the encoding of scalar values. */
  lemma {:induction false} ValidIsEncoded(s: seq<Byte>) returns (cs: seq<nat>)
    requires ValidUtf8(s)
    ensures (forall i :: 0 <= i < |cs| ==> Scalar(cs[i])) && Utf8All(cs) == s
    decreases |s|
  {
    hide Utf8, ScalarLength;
    if s == [] {
      cs := [];
    } else {
      var c := ScalarOf(s);
      var rest := ValidIsEncoded(s[ScalarLength(s)..]);
      cs := [c] + rest;
      assert s == s[..ScalarLength(s)] + s[ScalarLength(s)..];
    }
  }

  /** Two's complement: the cast to u64 is the remainder modulo 2^64. */
  lemma I64BitsIs(n: Int64)
    ensures I64Bits(n) == n % 0x1_0000_0000_0000_0000
  {
  }

  // ----- little-endian bytes written out

  lemma LeTwo(a: Byte, b: Byte)
    ensures var n: nat := a as int + 256 * (b as int); LeBytes(n, 2) == [a, b]
  {
    var x: nat, y: nat := a, b;
    LowByte(a, y);
    LowByte(b, 0);
    assert LeBytes(y, 1) == [b];
  }

  lemma LeFour(a: Byte, b: Byte, c: Byte, d: Byte)
    ensures var n: nat := a as int + 256 * (b as int + 256 * (c as int + 256 * (d as int))); LeBytes(n, 4) == [a, b, c, d]
  {
    var w: nat, x: nat, y: nat, z: nat := a, b, c, d;
    LowByte(a, x + 256 * (y + 256 * z));
    LowByte(b, y + 256 * z);
    LeTwo(c, d);
    assert LeBytes(y + 256 * z, 2) == [c, d];
    assert LeBytes(x + 256 * (y + 256 * z), 3) == [b, c, d];
  }

  lemma LeEight(a: Byte, b: Byte, c: Byte, d: Byte, m: nat)
    ensures var n: nat := a as int + 256 * (b as int + 256 * (c as int + 256 * (d as int + 256 * m)));
            LeBytes(n, 8) == [a, b, c, d] + LeBytes(m, 4)
  {
    var w: nat, x: nat, y: nat, z: nat := a, b, c, d;
    var n3 := z + 256 * m;
    var n2 := y + 256 * n3;
    var n1 := x + 256 * n2;
    LowByte(d, m);
    LowByte(c, n3);
    LowByte(b, n2);
    LowByte(a, n1);
    assert LeBytes(n3, 5) == [d] + LeBytes(m, 4);
    assert LeBytes(n2, 6) == [c] + LeBytes(n3, 5);
    assert LeBytes(n1, 7) == [b] + LeBytes(n2, 6);
  }
}
