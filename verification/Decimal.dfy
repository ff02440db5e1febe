/**
 Decimal numerals as printf writes them, and their order under strcmp: the order in
 which the records of one name compare by revision.
 */
module Decimal {

  function Digit(d: int): char
    requires 0 <= d < 10
  {
    ('0' as int + d) as char
  }

  predicate IsDigit(c: char) { '0' <= c <= '9' }

  /** "%u" */
  function Digits(n: nat): (s: string)
    ensures |s| > 0 && forall c | c in s :: IsDigit(c)
  {
    if n < 10 then [Digit(n)] else Digits(n / 10) + [Digit(n % 10)]
  }

  /** "%d" */
  function Numeral(n: int): string {
    if n < 0 then "-" + Digits(-n) else Digits(n)
  }

  /** The sign of strcmp, on strings without NUL. */
  function Compare(s: string, t: string): int {
    if s == "" && t == "" then 0
    else if s == "" then -1
    else if t == "" then 1
    else if s[0] != t[0] then (if s[0] < t[0] then -1 else 1)
    else Compare(s[1..], t[1..])
  }

  // ----- strcmp is a total order -----

  lemma {:induction false} CompareZero(s: string, t: string)
    ensures Compare(s, t) == 0 <==> s == t
  {
    if s != "" && t != "" {
      CompareZero(s[1..], t[1..]);
      assert s == [s[0]] + s[1..] && t == [t[0]] + t[1..];
    }
  }

  lemma {:induction false} CompareSwap(s: string, t: string)
    ensures Compare(t, s) == -Compare(s, t)
  {
    if s != "" && t != "" {
      CompareSwap(s[1..], t[1..]);
    }
  }

  lemma {:induction false} CompareTransitive(s: string, t: string, u: string)
    requires Compare(s, t) <= 0 && Compare(t, u) <= 0
    ensures Compare(s, u) <= 0
    ensures Compare(s, t) < 0 || Compare(t, u) < 0 ==> Compare(s, u) < 0
  {
    if s != "" && t != "" && u != "" && s[0] == t[0] == u[0] {
      CompareTransitive(s[1..], t[1..], u[1..]);
    }
  }

  /** One more character on each of two strings of the same length decides only a tie. */
  lemma {:induction false} CompareLast(s: string, t: string, c: char, d: char)
    requires |s| == |t|
    ensures Compare(s + [c], t + [d]) ==
      if Compare(s, t) != 0 then Compare(s, t) else if c < d then -1 else if c == d then 0 else 1
  {
    if s == "" {
      assert s + [c] == [c] && t + [d] == [d];
      assert [c][1..] == "" && [d][1..] == "";
    } else {
      CompareLast(s[1..], t[1..], c, d);
      assert (s + [c])[1..] == s[1..] + [c] && (t + [d])[1..] == t[1..] + [d];
    }
  }

  /** A longer string is compared by its prefix, and is the greater when that ties. */
  lemma {:induction false} ComparePrefix(s: string, t: string, u: string)
    requires |s| == |t| && u != ""
    ensures Compare(s, t + u) == if Compare(s, t) != 0 then Compare(s, t) else -1
  {
    if s == "" {
      assert t + u == u;
    } else {
      ComparePrefix(s[1..], t[1..], u);
      assert (t + u)[1..] == t[1..] + u;
    }
  }

  // ----- numerals -----

  /** n without its last k digits. */
  function Cut(n: nat, k: nat): nat {
    if k == 0 then n else Cut(n / 10, k - 1)
  }

  lemma {:induction false} CutDigits(n: nat, k: nat)
    requires k < |Digits(n)|
    ensures |Digits(Cut(n, k))| == |Digits(n)| - k
    ensures k > 0 ==> exists u :: u != "" && Digits(n) == Digits(Cut(n, k)) + u
  {
    if k == 1 {
      assert Cut(n, 1) == Cut(n / 10, 0) == n / 10;
      assert [Digit(n % 10)] != "";
    } else if k > 1 {
      CutDigits(n / 10, k - 1);
      var u :| u != "" && Digits(n / 10) == Digits(Cut(n / 10, k - 1)) + u;
      assert Digits(n) == Digits(Cut(n, k)) + (u + [Digit(n % 10)]);
    }
  }

  lemma {:induction false} FewerDigits(a: nat, b: nat)
    requires |Digits(a)| < |Digits(b)|
    ensures a < b
  {
    if a >= 10 {
      FewerDigits(a / 10, b / 10);
    }
  }

  /** Numerals of the same length compare as the numbers do. */
  lemma {:induction false} SameLength(a: nat, b: nat)
    requires |Digits(a)| == |Digits(b)|
    ensures Compare(Digits(a), Digits(b)) == if a < b then -1 else if a == b then 0 else 1
  {
    if a < 10 {
      CompareLast("", "", Digit(a), Digit(b));
      assert "" + [Digit(a)] == Digits(a) && "" + [Digit(b)] == Digits(b);
    } else {
      SameLength(a / 10, b / 10);
      CompareLast(Digits(a / 10), Digits(b / 10), Digit(a % 10), Digit(b % 10));
    }
  }

  /** A shorter numeral comes first exactly when it does not exceed the leading digits
      of the longer one. */
  lemma ShorterFirst(a: nat, b: nat)
    requires |Digits(a)| < |Digits(b)|
    ensures Compare(Digits(a), Digits(b)) != 0
    ensures Compare(Digits(a), Digits(b)) < 0 <==> a <= Cut(b, |Digits(b)| - |Digits(a)|)
  {
    var k := |Digits(b)| - |Digits(a)|;
    CutDigits(b, k);
    var u :| u != "" && Digits(b) == Digits(Cut(b, k)) + u;
    SameLength(a, Cut(b, k));
    ComparePrefix(Digits(a), Digits(Cut(b, k)), u);
  }

  /** Whether the numeral of a may stand before that of b, a being the lesser. */
  predicate InStep(a: nat, b: nat) {
    |Digits(a)| < |Digits(b)| ==> a <= Cut(b, |Digits(b)| - |Digits(a)|)
  }

  /** The order of the numerals of a < b is numeric exactly when the shorter is at most
      the leading digits of the longer; the first difference is "10" before "9". */
  lemma NumericOrder(a: nat, b: nat)
    requires a < b
    ensures Compare(Digits(a), Digits(b)) < 0 <==> InStep(a, b)
  {
    if |Digits(a)| == |Digits(b)| {
      SameLength(a, b);
    } else {
      if |Digits(b)| < |Digits(a)| {
        FewerDigits(b, a);
      }
      ShorterFirst(a, b);
    }
  }

  lemma {:induction false} DigitsInjective(a: nat, b: nat)
    requires Digits(a) == Digits(b)
    ensures a == b
  {
    SameLength(a, b);
    CompareZero(Digits(a), Digits(b));
  }

  lemma NumeralInjective(a: int, b: int)
    requires Numeral(a) == Numeral(b)
    ensures a == b
  {
    if a < 0 && b < 0 {
      assert Numeral(a)[1..] == Digits(-a) && Numeral(b)[1..] == Digits(-b);
      DigitsInjective(-a, -b);
    } else if a >= 0 && b >= 0 {
      DigitsInjective(a, b);
    } else {
      var neg, pos := if a < 0 then a else b, if a < 0 then b else a;
      assert Numeral(neg)[0] == '-' && Digits(pos)[0] in Digits(pos);
    }
  }
}
