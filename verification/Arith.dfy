/** Division, product and rounding facts, proved once so that no other proof needs non-linear reasoning. */
module Arith {

  lemma MulMono(a: nat, b: nat, c: nat)
    requires a <= b
    ensures a * c <= b * c
  {
  }

  lemma MulStep(a: nat, c: nat)
    ensures (a + 1) * c == a * c + c
  {
  }

  /** `q` and `r` are the only quotient and remainder. */
  lemma DivModUnique(n: nat, q: nat, b: nat, r: nat)
    requires r < b && n == q * b + r
    ensures n / b == q && n % b == r
  {
    var d, e := n / b, n % b;
    assert n == d * b + e && 0 <= e < b by { DivModDef(n, b); }
    if d < q {
      MulMono(d + 1, q, b);
      MulStep(d, b);
    } else if q < d {
      MulMono(q + 1, d, b);
      MulStep(q, b);
    }
  }

  lemma DivModDef(n: nat, b: nat)
    requires b > 0
    ensures n == (n / b) * b + n % b && 0 <= n % b < b
  {
  }

  /** Position `r` of group `g` lies below the end of the last of `groups` groups. */
  lemma InGroup(g: nat, groups: nat, size: nat, r: nat)
    requires g < groups && r < size
    ensures g * size + r < groups * size && g * size + size <= groups * size
  {
    MulMono(g + 1, groups, size);
    MulStep(g, size);
  }

  lemma DivBelow(n: nat, q: nat, b: nat)
    requires b > 0 && n < q * b
    ensures n / b < q
  {
    DivModDef(n, b);
    if q <= n / b {
      MulMono(q, n / b, b);
    }
  }

  lemma ModAdd(c: nat, q: nat, m: nat)
    requires c > 0
    ensures (q * c + m) % c == m % c
  {
    DivModDef(m, c);
    var d := m / c;
    assert q * c + m == (q + d) * c + m % c;
    DivModUnique(q * c + m, q + d, c, m % c);
  }

  lemma MulAssoc(a: nat, b: nat, c: nat)
    ensures a * (b * c) == (a * b) * c
  {
  }

  /** `f32::round` and `f64::round`: to the nearest integer, halves away from zero. */
  function Round(t: real): int {
    if t >= 0.0 then (t + 0.5).Floor else -((-t + 0.5).Floor)
  }

  lemma RoundClose(t: real)
    ensures -0.5 <= t - Round(t) as real <= 0.5
  {
  }

  /** Rounding to the nearest integer, halves away from zero: the exact range that rounds to `n`. */
  lemma RoundIs(t: real, n: int)
    ensures Round(t) == n <==>
            if n > 0 then n as real - 0.5 <= t < n as real + 0.5
            else if n < 0 then n as real - 0.5 < t <= n as real + 0.5
            else -0.5 < t < 0.5
  {
    if t >= 0.0 {
      FloorIs(t + 0.5, n);
    } else {
      FloorIs(-t + 0.5, -n);
    }
  }

  lemma FloorIs(u: real, n: int)
    ensures u.Floor == n <==> n as real <= u < n as real + 1.0
  {
  }
}
