/** The base64 decoder: a rolling 32-bit accumulator that is never masked. */
module Base64 {
  import opened Arith
  import opened Bytes

  /** A six-bit group. */
  type Sextet = n: nat | n < 64

  /** ASCII whitespace and padding are ignored wherever they stand. */
  predicate Skipped(c: char) {
    c == ' ' || c == '\t' || c == '\n' || c == '\U{c}' || c == '\r' || c == '='
  }

  /** Standard and URL-safe alphabets, sections 4 and 5 of RFC 4648. */
  function SextetOf(c: char): Option<Sextet> {
    if 'A' <= c <= 'Z' then Some(c as int - 'A' as int)
    else if 'a' <= c <= 'z' then Some(c as int - 'a' as int + 26)
    else if '0' <= c <= '9' then Some(c as int - '0' as int + 52)
    else if c == '+' || c == '-' then Some(62)
    else if c == '/' || c == '_' then Some(63)
    else None
  }

  // ----- the decoding loop

  /** `(acc << 6) | v` on 32 bits. */
  function Shift(acc: Word32, v: Sextet): Word32 {
    (acc * 64) % U32 + v
  }

  /** `(acc >> nbits) as u8`, for the shifts that occur. */
  function Emit(acc: Word32, nbits: nat): Byte {
    if nbits == 0 then acc % 256
    else if nbits == 2 then (acc / 4) % 256
    else (acc / 16) % 256
  }

  /** Bits pending between two characters. */
  predicate PendingBits(n: nat) {
    n == 0 || n == 2 || n == 4 || n == 6
  }

  /** The bytes the loop pushes for the remaining groups. */
  function DecodeFrom(acc: Word32, nbits: nat, s: seq<Sextet>): seq<Byte>
    requires PendingBits(nbits)
    decreases |s|
  {
    if s == [] then []
    else
      var acc' := Shift(acc, s[0]);
      if nbits + 6 >= 8 then [Emit(acc', nbits - 2)] + DecodeFrom(acc', nbits - 2, s[1..])
      else DecodeFrom(acc', nbits + 6, s[1..])
  }

  /** The groups a text spells, or None if a character is outside alphabet, whitespace and padding. */
  function Sextets(t: string): Option<seq<Sextet>> {
    if t == [] then Some([])
    else if Skipped(t[0]) then Sextets(t[1..])
    else match (SextetOf(t[0]), Sextets(t[1..]))
         case (Some(v), Some(rest)) => Some([v] + rest)
         case (_, _) => None
  }

  function Decode(t: string): Option<seq<Byte>> {
    match Sextets(t)
    case Some(s) => Some(DecodeFrom(0, 0, s))
    case None => None
  }

  /** Decoding fails exactly on a character outside alphabet, whitespace and padding. */
  lemma {:induction false} NoneIffForeign(t: string)
    ensures Decode(t) == None <==> exists i :: 0 <= i < |t| && !Skipped(t[i]) && SextetOf(t[i]) == None
  {
    if t != [] {
      NoneIffForeign(t[1..]);
      hide Skipped, SextetOf;
      assert forall i :: 0 <= i < |t[1..]| ==> t[1..][i] == t[i + 1];
      if i :| 0 <= i < |t| && !Skipped(t[i]) && SextetOf(t[i]) == None {
        assert i == 0 || t[1..][i - 1] == t[i];
      }
      if j :| 0 <= j < |t[1..]| && !Skipped(t[1..][j]) && SextetOf(t[1..][j]) == None {
        assert !Skipped(t[j + 1]) && SextetOf(t[j + 1]) == None;
      }
    }
  }

  /** `base64_decode_bytes`. */
  method DecodeBytes(t: string) returns (r: Option<seq<Byte>>)
    ensures r == Decode(t)
  {
    hide Skipped, SextetOf, Shift, Emit;
    var acc: Word32, nbits, out: seq<Byte> := 0, 0, [];
    assert t[0..] == t && forall x: seq<Byte> :: [] + x == x;
    for i := 0 to |t|
      invariant PendingBits(nbits)
      invariant Decode(t) == match Sextets(t[i..]) case Some(s) => Some(out + DecodeFrom(acc, nbits, s)) case None => None
    {
      assert t[i..][0] == t[i] && t[i..][1..] == t[i + 1..];
      if Skipped(t[i]) {
        continue;
      }
      match SextetOf(t[i]) {
        case None =>
          return None;
        case Some(v) =>
          ghost var rest := Sextets(t[i + 1..]);
          DecodeStep(acc, nbits, v, if rest.Some? then rest.value else []);
          ghost var before := out;
          acc := Shift(acc, v);
          nbits := nbits + 6;
          if nbits >= 8 {
            nbits := nbits - 8;
            out := out + [Emit(acc, nbits)];
            if rest.Some? {
              ghost var tail := DecodeFrom(acc, nbits, rest.value);
              assert before + ([Emit(acc, nbits)] + tail) == out + tail;
            }
          }
      }
    }
    assert Sextets(t[|t|..]) == Some([]) && out + [] == out;
    r := Some(out);
  }

  lemma DecodeStep(acc: Word32, nbits: nat, v: Sextet, s: seq<Sextet>)
    requires PendingBits(nbits)
    ensures DecodeFrom(acc, nbits, [v] + s)
         == if nbits >= 2 then [Emit(Shift(acc, v), nbits - 2)] + DecodeFrom(Shift(acc, v), nbits - 2, s)
            else DecodeFrom(Shift(acc, v), nbits + 6, s)
  {
    hide Shift, Emit;
    assert ([v] + s)[1..] == s;
  }

  // ----- what the unmasked accumulator leaves behind does not matter

  /** The low `n` bits. */
  function LowBits(acc: nat, n: nat): nat
    requires PendingBits(n)
  {
    if n == 0 then 0 else if n == 2 then acc % 4 else if n == 4 then acc % 16 else acc % 64
  }

  /** What survives the shift out of the top: the low 26 bits. */
  lemma ShiftForm(acc: Word32, v: Sextet)
    ensures Shift(acc, v) == 64 * (acc % 0x400_0000) + v
  {
    var q, m := acc / 0x400_0000, acc % 0x400_0000;
    assert acc * 64 == q * U32 + 64 * m;
    DivModUnique(acc * 64, q, U32, 64 * m);
  }

  lemma ShiftLow(acc: Word32, v: Sextet)
    ensures LowBits(Shift(acc, v), 6) == v
    ensures LowBits(Shift(acc, v), 4) == v % 16 && LowBits(Shift(acc, v), 2) == v % 4
  {
    hide Shift;
    ShiftForm(acc, v);
    LowOfSum(acc % 0x400_0000, v);
  }

  lemma EmitLow(acc: Word32, v: Sextet, nbits: nat)
    requires PendingBits(nbits) && nbits >= 2
    ensures nbits == 2 ==> Emit(Shift(acc, v), 0) == LowBits(acc, 2) * 64 + v
    ensures nbits == 4 ==> Emit(Shift(acc, v), 2) == LowBits(acc, 4) * 16 + v / 4
    ensures nbits == 6 ==> Emit(Shift(acc, v), 4) == LowBits(acc, 6) * 4 + v / 16
  {
    hide Shift;
    ShiftForm(acc, v);
    SameLowBits(acc);
    var m := acc % 0x400_0000;
    if nbits == 2 {
      Window2(m, v);
    } else if nbits == 4 {
      Window4(m, v);
    } else {
      Window6(m, v);
    }
  }

  lemma SameLowBits(acc: nat)
    ensures acc % 0x400_0000 % 4 == acc % 4 && acc % 0x400_0000 % 16 == acc % 16 && acc % 0x400_0000 % 64 == acc % 64
  {
    var q, m := acc / 0x400_0000, acc % 0x400_0000;
    assert acc == 64 * (0x10_0000 * q) + m;
    LowOfSum(0x10_0000 * q, m);
  }

  lemma LowOfSum(q: nat, m: nat)
    ensures (64 * q + m) % 4 == m % 4 && (64 * q + m) % 16 == m % 16 && (64 * q + m) % 64 == m % 64
  {
    ModAdd(4, 16 * q, m);
    ModAdd(16, 4 * q, m);
    ModAdd(64, q, m);
  }

  lemma Window2(m: nat, v: Sextet)
    ensures (64 * m + v) % 256 == m % 4 * 64 + v
  {
  }

  lemma Window4(m: nat, v: Sextet)
    ensures (64 * m + v) / 4 % 256 == m % 16 * 16 + v / 4
  {
    assert (64 * m + v) / 4 == 16 * m + v / 4;
  }

  lemma Window6(m: nat, v: Sextet)
    ensures (64 * m + v) / 16 % 256 == m % 64 * 4 + v / 16
  {
    assert (64 * m + v) / 16 == 4 * m + v / 16;
  }

  /** Only the pending bits of the accumulator matter, so masking it would change nothing. */
  lemma {:induction false} OnlyPendingBitsMatter(a: Word32, b: Word32, nbits: nat, s: seq<Sextet>)
    requires PendingBits(nbits) && LowBits(a, nbits) == LowBits(b, nbits)
    ensures DecodeFrom(a, nbits, s) == DecodeFrom(b, nbits, s)
    decreases |s|
  {
    hide Shift, Emit, LowBits;
    if s != [] {
      ShiftLow(a, s[0]);
      ShiftLow(b, s[0]);
      if nbits >= 2 {
        EmitLow(a, s[0], nbits);
        EmitLow(b, s[0], nbits);
        if nbits == 2 { NoPendingBits(Shift(a, s[0]), Shift(b, s[0])); }
        OnlyPendingBitsMatter(Shift(a, s[0]), Shift(b, s[0]), nbits - 2, s[1..]);
      } else {
        OnlyPendingBitsMatter(Shift(a, s[0]), Shift(b, s[0]), nbits + 6, s[1..]);
      }
    }
  }

  lemma NoPendingBits(a: nat, b: nat)
    ensures LowBits(a, 0) == LowBits(b, 0)
  {
  }

  // ----- the encoding of RFC 4648 and its inversion

  /** Three bytes to four groups; one or two trailing bytes to two or three groups. */
  function EncodeSextets(b: seq<Byte>): seq<Sextet> {
    if b == [] then []
    else if |b| == 1 then [b[0] / 4, b[0] % 4 * 16]
    else if |b| == 2 then [b[0] / 4, b[0] % 4 * 16 + b[1] / 16, b[1] % 16 * 4]
    else [b[0] / 4, b[0] % 4 * 16 + b[1] / 16, b[1] % 16 * 4 + b[2] / 64, b[2] % 64] + EncodeSextets(b[3..])
  }

  /** Decoding the first two groups of an aligned position. */
  lemma FirstByte(acc: Word32, v: Sextet, w: Sextet, s: seq<Sextet>)
    ensures DecodeFrom(acc, 0, [v, w] + s) == [v * 4 + w / 16] + DecodeFrom(Shift(Shift(acc, v), w), 4, s)
  {
    hide Shift, Emit, LowBits, DecodeFrom;
    assert [v, w] + s == [v] + ([w] + s);
    DecodeStep(acc, 0, v, [w] + s);
    DecodeStep(Shift(acc, v), 6, w, s);
    ShiftLow(acc, v);
    EmitLow(Shift(acc, v), w, 6);
  }

  lemma SecondByte(acc: Word32, w: Sextet, x: Sextet, s: seq<Sextet>)
    ensures DecodeFrom(Shift(acc, w), 4, [x] + s) == [w % 16 * 16 + x / 4] + DecodeFrom(Shift(Shift(acc, w), x), 2, s)
  {
    hide Shift, Emit, LowBits, DecodeFrom;
    DecodeStep(Shift(acc, w), 4, x, s);
    ShiftLow(acc, w);
    EmitLow(Shift(acc, w), x, 4);
  }

  lemma ThirdByte(acc: Word32, x: Sextet, y: Sextet, s: seq<Sextet>)
    ensures DecodeFrom(Shift(acc, x), 2, [y] + s) == [x % 4 * 64 + y] + DecodeFrom(Shift(Shift(acc, x), y), 0, s)
  {
    hide Shift, Emit, LowBits, DecodeFrom;
    DecodeStep(Shift(acc, x), 2, y, s);
    ShiftLow(acc, x);
    EmitLow(Shift(acc, x), y, 2);
  }

  /** Four groups at an aligned position decode to the three bytes they were made from. */
  lemma FullGroup(acc: Word32, b: seq<Byte>, rest: seq<Sextet>) returns (acc': Word32)
    requires |b| == 3
    ensures DecodeFrom(acc, 0, EncodeSextets(b) + rest) == b + DecodeFrom(acc', 0, rest)
  {
    hide Shift, DecodeFrom;
    var v, w, x, y := b[0] / 4, b[0] % 4 * 16 + b[1] / 16, b[1] % 16 * 4 + b[2] / 64, b[2] % 64;
    assert EncodeSextets(b) == [v, w, x, y] + EncodeSextets(b[3..]);
    assert EncodeSextets(b) + rest == [v, w] + ([x] + ([y] + rest));
    var acc2 := Shift(Shift(acc, v), w);
    FirstByte(acc, v, w, [x] + ([y] + rest));
    SecondByte(Shift(acc, v), w, x, [y] + rest);
    ThirdByte(acc2, x, y, rest);
    acc' := Shift(Shift(acc2, x), y);
    assert b == [b[0]] + ([b[1]] + [b[2]]);
  }

  lemma LastTwo(acc: Word32, b: seq<Byte>)
    requires |b| == 2
    ensures DecodeFrom(acc, 0, EncodeSextets(b)) == b
  {
    hide Shift, DecodeFrom;
    var v, w, x := b[0] / 4, b[0] % 4 * 16 + b[1] / 16, b[1] % 16 * 4;
    assert EncodeSextets(b) == [v, w] + ([x] + []);
    FirstByte(acc, v, w, [x] + []);
    SecondByte(Shift(acc, v), w, x, []);
    DecodeNothing(Shift(Shift(Shift(acc, v), w), x), 2);
  }

  lemma LastOne(acc: Word32, b: seq<Byte>)
    requires |b| == 1
    ensures DecodeFrom(acc, 0, EncodeSextets(b)) == b
  {
    hide Shift, DecodeFrom;
    var v, w := b[0] / 4, b[0] % 4 * 16;
    assert EncodeSextets(b) == [v, w] + [];
    FirstByte(acc, v, w, []);
    DecodeNothing(Shift(Shift(acc, v), w), 4);
  }

  /** From any aligned position, whatever the accumulator holds, decoding inverts the encoding. */
  lemma {:induction false} InvertsEncoding(acc: Word32, b: seq<Byte>)
    ensures DecodeFrom(acc, 0, EncodeSextets(b)) == b
    decreases |b|
  {
    hide DecodeFrom;
    if b == [] {
      DecodeNothing(acc, 0);
    } else if |b| == 1 {
      LastOne(acc, b);
    } else if |b| == 2 {
      LastTwo(acc, b);
    } else {
      var acc' := FullGroup(acc, b[..3], EncodeSextets(b[3..]));
      assert b[..3][3..] == [] && EncodeSextets(b) == EncodeSextets(b[..3]) + EncodeSextets(b[3..]);
      InvertsEncoding(acc', b[3..]);
      assert b == b[..3] + b[3..];
    }
  }

  lemma DecodeNothing(acc: Word32, nbits: nat)
    requires PendingBits(nbits)
    ensures DecodeFrom(acc, nbits, []) == []
  {
  }

  /** The alphabet character of a group. */
  function CharOf(v: Sextet, urlSafe: bool): (c: char)
    ensures SextetOf(c) == Some(v) && !Skipped(c)
  {
    if v < 26 then (v + 65) as char
    else if v < 52 then (v + 71) as char
    else if v < 62 then (v - 4) as char
    else if v == 62 then (if urlSafe then '-' else '+')
    else if urlSafe then '_' else '/'
  }

  function Spell(s: seq<Sextet>, urlSafe: bool): string {
    if s == [] then [] else [CharOf(s[0], urlSafe)] + Spell(s[1..], urlSafe)
  }

  function Padding(n: nat): string {
    if n % 3 == 0 then "" else if n % 3 == 1 then "==" else "="
  }

  /** The encodings of RFC 4648, with or without padding. */
  function Encode(b: seq<Byte>, urlSafe: bool, padded: bool): string {
    Spell(EncodeSextets(b), urlSafe) + if padded then Padding(|b|) else ""
  }

  /** A text without the characters the decoder ignores. */
  function Strip(t: string): string {
    if t == [] then [] else (if Skipped(t[0]) then [] else [t[0]]) + Strip(t[1..])
  }

  lemma {:induction false} SextetsOfStrip(t: string)
    ensures Sextets(Strip(t)) == Sextets(t)
    ensures forall i :: 0 <= i < |Strip(t)| ==> !Skipped(Strip(t)[i])
  {
    if t != [] {
      hide Skipped, SextetOf;
      SextetsOfStrip(t[1..]);
      if Skipped(t[0]) {
        assert Strip(t) == Strip(t[1..]);
      } else {
        assert Strip(t)[1..] == Strip(t[1..]);
      }
    }
  }

  lemma {:induction false} SpellReads(s: seq<Sextet>, urlSafe: bool)
    ensures Sextets(Spell(s, urlSafe)) == Some(s) && Strip(Spell(s, urlSafe)) == Spell(s, urlSafe)
  {
    if s != [] {
      hide Skipped, SextetOf, CharOf;
      SpellReads(s[1..], urlSafe);
      assert Spell(s, urlSafe)[1..] == Spell(s[1..], urlSafe);
      assert s == [s[0]] + s[1..];
    }
  }

  lemma {:induction false} StripAppend(a: string, b: string)
    ensures Strip(a + b) == Strip(a) + Strip(b)
  {
    if a == [] {
      assert a + b == b;
    } else {
      hide Skipped;
      assert (a + b)[1..] == a[1..] + b;
      StripAppend(a[1..], b);
    }
  }

  lemma PaddingStrips(n: nat)
    ensures Strip(Padding(n)) == []
  {
    assert "=="[1..] == "=" && "="[1..] == "";
  }

  /**
    Any text that agrees with an encoding of `b` up to whitespace and padding decodes to `b`, in either
    alphabet, padded or not.
   */
  lemma DecodesEveryEncoding(b: seq<Byte>, urlSafe: bool, padded: bool, t: string)
    requires Strip(t) == Strip(Encode(b, urlSafe, padded))
    ensures Decode(t) == Some(b)
  {
    hide Sextets, DecodeFrom, Strip, Padding, Spell, EncodeSextets;
    var spelled := Spell(EncodeSextets(b), urlSafe);
    SpellReads(EncodeSextets(b), urlSafe);
    StripAppend(spelled, if padded then Padding(|b|) else "");
    PaddingStrips(|b|);
    assert Strip("") == [] by { PaddingStrips(0); EmptyPadding(); }
    assert spelled + [] == spelled;
    SextetsOfStrip(t);
    InvertsEncoding(0, b);
  }

  lemma EmptyPadding()
    ensures Padding(0) == ""
  {
  }

  // ----- the alphabets, the ignored characters and the test vectors, written out

  /** The table of RFC 4648: A-Z, a-z, 0-9, and for the last two values a character of either alphabet. */
  lemma SextetIs(c: char, v: Sextet)
    ensures SextetOf(c) == Some(v) <==>
            if v < 26 then c as int == 65 + v
            else if v < 52 then c as int == 97 + (v - 26)
            else if v < 62 then c as int == 48 + (v - 52)
            else if v == 62 then c as int in {43, 45}
            else c as int in {47, 95}
  {
  }

  /** What is ignored: the ASCII white space characters and the padding sign. */
  lemma SkippedIs(c: char)
    ensures Skipped(c) <==> c as int in {9, 10, 12, 13, 32, 61}
  {
  }

  /** Any of them may be inserted anywhere. */
  lemma InsertSkipped(a: string, b: string, c: char)
    requires c as int in {9, 10, 12, 13, 32, 61}
    ensures Decode(a + [c] + b) == Decode(a + b)
  {
    hide Strip, Sextets, DecodeFrom;
    assert Strip([c]) == [] by { OneSkipped(c); }
    StripAppend(a + [c], b);
    StripAppend(a, [c]);
    StripAppend(a, b);
    assert Strip(a) + [] == Strip(a);
    SextetsOfStrip(a + [c] + b);
    SextetsOfStrip(a + b);
  }

  lemma OneSkipped(c: char)
    requires Skipped(c)
    ensures Strip([c]) == []
  {
    hide Skipped;
    assert Strip([c][1..]) == [];
  }

  lemma Sextets4(t: string, a: Sextet, b: Sextet, c: Sextet, d: Sextet)
    requires |t| >= 4 && SextetOf(t[0]) == Some(a) && SextetOf(t[1]) == Some(b) && SextetOf(t[2]) == Some(c)
    requires SextetOf(t[3]) == Some(d)
    ensures Sextets(t) == match Sextets(t[4..]) case Some(s) => Some([a, b, c, d] + s) case None => None
  {
    hide Skipped, SextetOf;
    AlphabetKept(t[0]);
    AlphabetKept(t[1]);
    AlphabetKept(t[2]);
    AlphabetKept(t[3]);
    assert t[1..][0] == t[1] && t[1..][1..] == t[2..];
    assert t[2..][0] == t[2] && t[2..][1..] == t[3..];
    assert t[3..][0] == t[3] && t[3..][1..] == t[4..];
    var rest := Sextets(t[4..]);
    assert rest.Some? ==> Sextets(t[3..]) == Some([d] + rest.value);
    assert rest.Some? ==> Sextets(t[2..]) == Some([c] + ([d] + rest.value));
    assert rest.Some? ==> Sextets(t[1..]) == Some([b] + ([c] + ([d] + rest.value)));
    assert rest.Some? ==> [a] + ([b] + ([c] + ([d] + rest.value))) == [a, b, c, d] + rest.value;
    assert rest.None? ==> Sextets(t[3..]).None? && Sextets(t[2..]).None? && Sextets(t[1..]).None?;
  }

  lemma AlphabetKept(c: char)
    requires SextetOf(c).Some?
    ensures !Skipped(c)
  {
  }

  /** "foobar", section 10 of RFC 4648. */
  lemma TestVector()
    ensures Decode("Zm9vYmFy") == Some([102, 111, 111, 98, 97, 114])
  {
    hide DecodeFrom, Sextets;
    var t, b := "Zm9vYmFy", [102, 111, 111, 98, 97, 114];
    Sextets4(t, 25, 38, 61, 47);
    Sextets4(t[4..], 24, 38, 5, 50);
    assert t[4..][4..] == [] && Sextets([]) == Some([]) by { NoSextets(); }
    assert EncodeSextets(b) == [25, 38, 61, 47, 24, 38, 5, 50] by { FoobarSextets(b); }
    assert [25, 38, 61, 47] + ([24, 38, 5, 50] + []) == [25, 38, 61, 47, 24, 38, 5, 50];
    InvertsEncoding(0, b);
  }

  lemma NoSextets()
    ensures Sextets([]) == Some([])
  {
  }

  lemma FoobarSextets(b: seq<Byte>)
    requires b == [102, 111, 111, 98, 97, 114]
    ensures EncodeSextets(b) == [25, 38, 61, 47, 24, 38, 5, 50]
  {
    assert b[3..] == [98, 97, 114] && b[3..][3..] == [];
    assert EncodeSextets(b[3..]) == [24, 38, 5, 50];
  }
}
