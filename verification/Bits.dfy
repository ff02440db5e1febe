/** Bitwise operations of the source on natural numbers. */
module Bits {

  function Pow2(k: nat): (p: nat)
    ensures p > 0
  {
    if k == 0 then 1 else 2 * Pow2(k - 1)
  }

  /** a & b */
  function And(a: nat, b: nat): nat {
    if a == 0 || b == 0 then 0 else (a % 2) * (b % 2) + 2 * And(a / 2, b / 2)
  }

  /** a | b */
  function Or(a: nat, b: nat): nat {
    if a == 0 then b else if b == 0 then a
    else (if a % 2 == 1 || b % 2 == 1 then 1 else 0) + 2 * Or(a / 2, b / 2)
  }

  /** a >> k */
  function ShiftRight(a: nat, k: nat): nat {
    if k == 0 then a else ShiftRight(a / 2, k - 1)
  }

  lemma AtLeastOne(d: int, m: nat)
    requires d >= 1
    ensures d * m >= m
  {
    assert d * m == (d - 1) * m + m;
  }

  /** Quotient and remainder are determined. */
  lemma DivModUnique(q: int, r: int, q': int, r': int, m: nat)
    requires q * m + r == q' * m + r' && 0 <= r < m && 0 <= r' < m
    ensures q == q' && r == r'
  {
    assert (q - q') * m == q * m - q' * m;
    assert (q' - q) * m == q' * m - q * m;
    if q > q' {
      AtLeastOne(q - q', m);
    } else if q' > q {
      AtLeastOne(q' - q, m);
    }
  }

  lemma ModIs(a: nat, q: nat, m: nat, r: nat)
    requires a == q * m + r && r < m
    ensures a % m == r && a / m == q
  {
    DivModUnique(a / m, a % m, q, r, m);
  }

  lemma HalvedMod(a: nat, m: nat)
    requires m > 0
    ensures a % (2 * m) == 2 * ((a / 2) % m) + a % 2
  {
    var q, r := (a / 2) / m, (a / 2) % m;
    assert a / 2 == q * m + r;
    assert q * (2 * m) == 2 * (q * m);
    ModIs(a, q, 2 * m, 2 * r + a % 2);
  }

  /** Masking with 2^k - 1 is the remainder. */
  lemma {:induction false} AndMask(a: nat, k: nat)
    ensures And(a, Pow2(k) - 1) == a % Pow2(k)
  {
    if k > 0 {
      var m := Pow2(k - 1);
      AndMask(a / 2, k - 1);
      HalvedMod(a, m);
      assert (2 * m - 1) % 2 == 1 && (2 * m - 1) / 2 == m - 1;
    }
  }

  lemma RoundUp(n: nat, m: nat, q: nat, r: nat)
    requires n == q * m + r && r < m
    ensures var c := q + if r != 0 then 1 else 0; n <= c * m < n + m
  {
    assert (q + 1) * m == q * m + m;
  }

  /** Shifting by k divides by 2^k. */
  lemma {:induction false} ShiftDivides(a: nat, k: nat)
    ensures a == ShiftRight(a, k) * Pow2(k) + a % Pow2(k)
  {
    if k > 0 {
      var m, q := Pow2(k - 1), ShiftRight(a, k);
      ShiftDivides(a / 2, k - 1);
      HalvedMod(a, m);
      assert q * (2 * m) == 2 * (q * m);
    }
  }

  /** n/2^k rounded up, as uthash computes it from a shift and a mask. */
  lemma CeilByMask(n: nat, k: nat)
    ensures var c := ShiftRight(n, k) + if And(n, Pow2(k) - 1) != 0 then 1 else 0;
      n <= c * Pow2(k) < n + Pow2(k)
  {
    AndMask(n, k);
    ShiftDivides(n, k);
    RoundUp(n, Pow2(k), ShiftRight(n, k), n % Pow2(k));
  }

  /** Or of numbers without common bits, the second below 2^k, is their sum. */
  lemma {:induction false} OrDisjoint(a: nat, b: nat, k: nat)
    requires a % Pow2(k) == 0 && b < Pow2(k)
    ensures Or(a, b) == a + b
  {
    if k > 0 && a > 0 && b > 0 {
      var m := Pow2(k - 1);
      var q := a / (2 * m);
      assert a == q * (2 * m);
      assert q * (2 * m) == 2 * (q * m);
      ModIs(a / 2, q, m, 0);
      OrDisjoint(a / 2, b / 2, k - 1);
    }
  }
}
