/** Bitwise arithmetic on naturals, as far as 3rd/uthash/uthash.h uses it. */
module Bits {

  /** `x & y`, bit by bit. */
  function And(x: nat, y: nat): nat
    decreases x
  {
    if x == 0 then 0 else 2 * And(x / 2, y / 2) + (if x % 2 == 1 && y % 2 == 1 then 1 else 0)
  }

  function Pow2(k: nat): (p: nat)
    ensures 0 < p
  {
    if k == 0 then 1 else 2 * Pow2(k - 1)
  }

  /** `x >> k`. */
  function ShiftRight(x: nat, k: nat): nat
  {
    if k == 0 then x else ShiftRight(x / 2, k - 1)
  }

  lemma Scaled(a: nat, b: nat, d: nat)
    requires a < b
    ensures a * d + d <= b * d
  {
    assert b * d == a * d + d + (b - a - 1) * d;
  }

  lemma DivModUnique(x: nat, d: nat, q: nat, r: nat)
    requires x == q * d + r && r < d
    ensures x / d == q && x % d == r
  {
    var q', r' := x / d, x % d;
    assert x == q' * d + r' && r' < d;
    if q < q' {
      Scaled(q, q', d);
    } else if q' < q {
      Scaled(q', q, d);
    }
  }

  lemma Divide(x: nat, d: nat) returns (q: nat, r: nat)
    requires 0 < d
    ensures x == q * d + r && r < d && q == x / d && r == x % d
  {
    q, r := x / d, x % d;
  }

  /** Halving a number and its divisor keeps the quotient; the rest keeps all but its last bit. */
  lemma Halved(x: nat, m: nat)
    requires 0 < m
    ensures x / (2 * m) == (x / 2) / m && x % (2 * m) == 2 * ((x / 2) % m) + x % 2
  {
    var q, r := Divide(x / 2, m);
    var s := 2 * r + x % 2;
    assert 2 * (q * m) == q * (2 * m);
    DivModUnique(x, 2 * m, q, s);
  }

  /** Masking with an odd number keeps the last bit. */
  lemma AndUnfolds(x: nat, y: nat, h: nat)
    requires y == 2 * h + 1
    ensures And(x, y) == 2 * And(x / 2, h) + x % 2
  {
    assert y / 2 == h && y % 2 == 1;
  }

  lemma RestByOne(x: nat)
    ensures x % 1 == 0 && x / 1 == x && Pow2(0) == 1
  {
  }

  /** Masking with one less than a power of two is the remainder. */
  lemma {:induction false} MaskIsModulo(x: nat, k: nat)
    ensures And(x, Pow2(k) - 1) == x % Pow2(k)
    decreases k
  {
    if k == 0 {
      AndZero(x);
      RestByOne(x);
    } else {
      MaskIsModulo(x / 2, k - 1);
      var m := Pow2(k - 1);
      AndUnfolds(x, 2 * m - 1, m - 1);
      Halved(x, m);
    }
  }

  lemma {:induction false} AndZero(x: nat)
    ensures And(x, 0) == 0
  {
    if x == 0 {
    } else {
      AndZero(x / 2);
    }
  }

  /** Shifting right is dividing by a power of two. */
  lemma {:induction false} ShiftIsDivision(x: nat, k: nat)
    ensures ShiftRight(x, k) == x / Pow2(k)
    decreases k
  {
    if k > 0 {
      ShiftIsDivision(x / 2, k - 1);
      Halved(x, Pow2(k - 1));
    } else {
      RestByOne(x);
    }
  }

  lemma RestInLowHalf(x: nat, m: nat, q: nat, r: nat)
    requires r < m && x == q * (2 * m) + r
    ensures x % m == r
  {
    assert q * (2 * m) == (2 * q) * m;
    DivModUnique(x, m, 2 * q, r);
  }

  lemma RestInHighHalf(x: nat, m: nat, q: nat, r: nat)
    requires m <= r < 2 * m && x == q * (2 * m) + r
    ensures x % m == r - m
  {
    assert q * (2 * m) + m == (2 * q + 1) * m;
    DivModUnique(x, m, 2 * q + 1, r - m);
  }

  /** Doubling the bucket count sends bucket `b` to `b` and `b + old count`. */
  lemma DoublingSplits(x: nat, m: nat)
    requires 0 < m
    ensures x % (2 * m) == x % m || x % (2 * m) == x % m + m
  {
    var q, r := Divide(x, 2 * m);
    if r < m {
      RestInLowHalf(x, m, q, r);
    } else {
      RestInHighHalf(x, m, q, r);
    }
  }

  function CeilDiv(n: nat, d: nat): nat
    requires 0 < d
  {
    (n + d - 1) / d
  }

  lemma CeilByParts(n: nat, d: nat, q: nat, r: nat)
    requires n == q * d + r && r < d
    ensures CeilDiv(n, d) == q + (if r != 0 then 1 else 0)
  {
    if r == 0 {
      DivModUnique(n + d - 1, d, q, d - 1);
    } else {
      assert (q + 1) * d == q * d + d;
      DivModUnique(n + d - 1, d, q + 1, r - 1);
    }
  }

  lemma DivMod(n: nat, d: nat)
    requires 0 < d
    ensures n == (n / d) * d + n % d && n % d < d
  {
  }

  lemma CeilOfParts(n: nat, d: nat, shifted: nat, masked: nat)
    requires 0 < d && shifted == n / d && masked == n % d
    ensures shifted + (if masked != 0 then 1 else 0) == CeilDiv(n, d)
  {
    DivMod(n, d);
    CeilByParts(n, d, shifted, masked);
  }

  /** The shift-and-mask form of the ceiling (explained at 3rd/uthash/uthash.h:818-834). */
  lemma CeilByShift(n: nat, k: nat)
    ensures ShiftRight(n, k) + (if And(n, Pow2(k) - 1) != 0 then 1 else 0) == CeilDiv(n, Pow2(k))
  {
    ShiftIsDivision(n, k);
    MaskIsModulo(n, k);
    CeilOfParts(n, Pow2(k), ShiftRight(n, k), And(n, Pow2(k) - 1));
  }
}
