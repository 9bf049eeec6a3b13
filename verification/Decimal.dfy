/** Decimal formatting and parsing, as `format!("{n}")` and `str::parse::<u64>` do them. */
module Decimal {
  import opened Bytes

  /** The bytes of an ASCII literal. */
  function Ascii(s: string): (b: Str)
    requires forall i :: 0 <= i < |s| ==> s[i] as int < 128
    ensures |b| == |s|
    ensures forall i :: 0 <= i < |s| ==> b[i] == s[i] as int
  {
    seq(|s|, i requires 0 <= i < |s| => s[i] as int)
  }

  const ZERO: Byte := 48
  const PLUS: Byte := 43
  const MINUS: Byte := 45

  function Dec(n: nat): (s: Str)
    ensures s != []
  {
    if n < 10 then [ZERO + n] else Dec(n / 10) + [ZERO + n % 10]
  }

  /** `i64::to_string`. */
  function DecInt(n: int): Str {
    if n < 0 then [MINUS] + Dec(-n) else Dec(n)
  }

  predicate AllDigits(s: Str) {
    forall i :: 0 <= i < |s| ==> ZERO <= s[i] < ZERO + 10
  }

  function DigitsValue(s: Str): nat
    requires AllDigits(s)
  {
    if s == [] then 0 else 10 * DigitsValue(s[..|s| - 1]) + (s[|s| - 1] - ZERO)
  }

  /** Accepts an optional leading `+`, leading zeros, and values below 2^64. */
  function ParseU64(s: Str): Option<nat> {
    var digits := if s != [] && s[0] == PLUS then s[1..] else s;
    if digits == [] || !AllDigits(digits) then None
    else if DigitsValue(digits) < U64 then Some(DigitsValue(digits)) else None
  }

  lemma {:induction false} DecDigits(n: nat)
    ensures AllDigits(Dec(n)) && DigitsValue(Dec(n)) == n
  {
    if n >= 10 {
      DecDigits(n / 10);
      assert Dec(n)[..|Dec(n)| - 1] == Dec(n / 10);
    } else {
      assert Dec(n)[..0] == [];
    }
  }

  /** Formatting a u64 and parsing it back is the identity. */
  lemma ParseDec(n: nat)
    requires n < U64
    ensures ParseU64(Dec(n)) == Some(n)
  {
    hide Dec;
    DecDigits(n);
  }

  lemma DecInjective(m: nat, n: nat)
    requires Dec(m) == Dec(n)
    ensures m == n
  {
    hide Dec;
    DecDigits(m);
    DecDigits(n);
  }

  /** No leading zero: the first digit of a positive number is not 0. */
  lemma {:induction false} DecLeads(n: nat)
    ensures Dec(n)[0] == ZERO <==> n == 0
  {
    if n >= 10 {
      DecLeads(n / 10);
      assert Dec(n)[0] == Dec(n / 10)[0];
    }
  }

  /** The digits outright, most significant first: a number is its last digit behind the digits of the rest. */
  lemma DecIs(n: nat, d: nat)
    requires d < 10
    ensures n > 0 ==> Dec(10 * n + d) == Dec(n) + [48 + d]
    ensures Dec(d) == [48 + d]
  {
  }

  /** Negative numbers are written with a minus sign, which no other number starts with. */
  lemma DecIntIs(n: int)
    ensures n >= 0 ==> DecInt(n) == Dec(n) && DecInt(n)[0] != 45
    ensures n < 0 ==> DecInt(n)[0] == 45 && DecInt(n)[1..] == Dec(-n)
  {
    hide Dec;
    if n >= 0 { DecDigits(n); }
  }

  lemma DecIntInjective(m: int, n: int)
    requires DecInt(m) == DecInt(n)
    ensures m == n
  {
    hide DecInt;
    DecIntIs(m);
    DecIntIs(n);
    DecInjective(if m < 0 then -m else m, if n < 0 then -n else n);
  }

  function Zeros(k: nat): Str {
    seq(k, _ => 48)
  }

  lemma {:induction false} LeadingZeros(k: nat, s: Str)
    requires AllDigits(s)
    ensures AllDigits(Zeros(k) + s) && DigitsValue(Zeros(k) + s) == DigitsValue(s)
    decreases |s|, k
  {
    var t := Zeros(k) + s;
    if s == [] {
      if k > 0 {
        LeadingZeros(k - 1, []);
        assert t[..|t| - 1] == Zeros(k - 1) + [];
      }
    } else {
      LeadingZeros(k, s[..|s| - 1]);
      assert t[..|t| - 1] == Zeros(k) + s[..|s| - 1];
    }
  }

  /** Every digit string is a number in decimal behind leading zeros. */
  lemma {:induction false} DigitsAre(s: Str) returns (k: nat)
    requires s != [] && AllDigits(s)
    ensures s == Zeros(k) + Dec(DigitsValue(s))
  {
    var init, d := s[..|s| - 1], s[|s| - 1] - ZERO;
    assert s == init + [48 + d];
    if init == [] {
      k := 0;
    } else {
      k := DigitsAre(init);
      var n := DigitsValue(init);
      if n == 0 {
        k := k + 1;
        assert Zeros(k - 1) + [48] == Zeros(k);
      } else {
        DecIs(n, d);
      }
    }
  }

  /** `parse::<u64>` accepts exactly an optional plus sign, leading zeros, and a number below 2^64 in decimal. */
  lemma ParseIff(s: Str, n: nat)
    ensures ParseU64(s) == Some(n) <==> n < U64 && exists k, plus: bool :: s == Signed(plus, Zeros(k) + Dec(n))
  {
    hide Dec, DigitsValue;
    if ParseU64(s) == Some(n) {
      var plus := s[0] == PLUS;
      var digits := if plus then s[1..] else s;
      var k := DigitsAre(digits);
      assert s == Signed(plus, Zeros(k) + Dec(n));
    }
    if n < U64 {
      if k, plus: bool :| s == Signed(plus, Zeros(k) + Dec(n)) {
        DecDigits(n);
        LeadingZeros(k, Dec(n));
        var digits := Zeros(k) + Dec(n);
        assert ZERO <= digits[0];
        assert if plus then s[0] == PLUS && s[1..] == digits else s == digits;
      }
    }
  }

  function Signed(plus: bool, digits: Str): Str {
    (if plus then [43] else []) + digits
  }
}
