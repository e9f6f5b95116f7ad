/** Positional notation with the most significant digit first: the value of a digit
    sequence, and the one digit sequence without a leading zero that has a given value. */
module Radix {

  predicate DigitsBelow(ds: seq<nat>, b: nat) {
    forall i :: 0 <= i < |ds| ==> ds[i] < b
  }

  predicate NoLeadingZero(ds: seq<nat>) {
    ds != [] ==> ds[0] != 0
  }

  /** The number that `ds` writes in radix `b`. */
  function Value(ds: seq<nat>, b: nat): nat {
    if ds == [] then 0 else Value(ds[..|ds| - 1], b) * b + ds[|ds| - 1]
  }

  lemma {:induction false} DivisionFacts(n: nat, b: nat)
    requires 2 <= b
    ensures n == n / b * b + n % b
    ensures 0 <= n % b < b
    ensures 0 <= n / b
    ensures n > 0 ==> n / b < n
  {
    var q := n / b;
    assert n == q * b + n % b;
    if n > 0 && q > 0 {
      assert q * b >= q * 2;
    }
  }

  lemma {:induction false} MultipleBounds(d: int, b: nat)
    ensures d >= 1 ==> d * b >= b
    ensures d <= -1 ==> d * b + b <= 0
  {
    if d >= 1 {
      assert (d - 1) * b >= 0;
    } else if d <= -1 {
      assert (d + 1) * b <= 0;
    }
  }

  /** The quotient and remainder are the only pair that satisfies the division equation. */
  lemma {:induction false} DivisionUnique(n: nat, b: nat, q: nat, r: nat)
    requires 2 <= b && r < b
    requires n == q * b + r
    ensures n / b == q && n % b == r
  {
    DivisionFacts(n, b);
    assert (n / b - q) * b == r - n % b;
    MultipleBounds(n / b - q, b);
  }

  lemma {:induction false} QuotientsOrdered(q: nat, p: nat, r: nat, s: nat, b: nat, c: nat)
    requires q * c + r <= p * b + s
    requires s < b <= c
    ensures q <= p
  {
    assert q * c == q * b + q * (c - b);
    MultipleBounds(q - p, b);
    assert (q - p) * b == q * b - p * b;
  }

  lemma {:induction false} QuotientMonotone(m: nat, n: nat, b: nat, c: nat)
    requires m <= n
    requires 2 <= b <= c
    ensures m / c <= n / b
  {
    DivisionFacts(n, b);
    DivisionFacts(m, c);
    QuotientsOrdered(m / c, n / b, m % c, n % b, b, c);
  }

  /** The digits of `n` in radix `b`, without a leading zero; zero has no digits. */
  function Digits(n: nat, b: nat): (ds: seq<nat>)
    requires 2 <= b
    ensures DigitsBelow(ds, b) && NoLeadingZero(ds)
    ensures ds == [] <==> n == 0
    decreases n
  {
    DivisionFacts(n, b);
    if n == 0 then [] else Digits(n / b, b) + [n % b]
  }

  lemma {:induction false} ValueOfDigits(n: nat, b: nat)
    requires 2 <= b
    ensures Value(Digits(n, b), b) == n
    decreases n
  {
    DivisionFacts(n, b);
    if n != 0 {
      ValueOfDigits(n / b, b);
      var ds := Digits(n, b);
      assert ds[..|ds| - 1] == Digits(n / b, b);
    }
  }

  /** A nonzero leading digit makes the value positive. */
  lemma {:induction false} ValuePositive(ds: seq<nat>, b: nat)
    requires 2 <= b
    requires ds != [] && ds[0] != 0
    ensures Value(ds, b) > 0
  {
    if |ds| > 1 {
      ValuePositive(ds[..|ds| - 1], b);
      assert Value(ds[..|ds| - 1], b) * b >= Value(ds[..|ds| - 1], b);
    }
  }

  lemma {:induction false} DigitsOfValue(ds: seq<nat>, b: nat)
    requires 2 <= b
    requires DigitsBelow(ds, b) && NoLeadingZero(ds)
    ensures Digits(Value(ds, b), b) == ds
  {
    if ds != [] {
      var front := ds[..|ds| - 1];
      DigitsOfValue(front, b);
      ValuePositive(ds, b);
      DivisionUnique(Value(ds, b), b, Value(front, b), ds[|ds| - 1]);
    }
  }

  /** Leading zeros do not change a value. */
  lemma {:induction false} ValueSkipsZeros(ds: seq<nat>, k: nat, b: nat)
    requires k <= |ds|
    requires forall i :: 0 <= i < k ==> ds[i] == 0
    ensures Value(ds, b) == Value(ds[k..], b)
  {
    if ds != [] && k < |ds| {
      var front := ds[..|ds| - 1];
      ValueSkipsZeros(front, k, b);
      assert ds[k..][..|ds| - k - 1] == front[k..];
    } else if ds != [] {
      var front := ds[..|ds| - 1];
      ValueSkipsZeros(front, k - 1, b);
      assert front[k - 1..] == [];
      assert Value(front, b) * b == 0;
    }
  }

  /** More digits are never needed for a smaller number or in a larger radix. */
  lemma {:induction false} DigitsCountMonotone(m: nat, n: nat, b: nat, c: nat)
    requires m <= n
    requires 2 <= b <= c
    ensures |Digits(m, c)| <= |Digits(n, b)|
    decreases n
  {
    if m != 0 {
      DivisionFacts(n, b);
      QuotientMonotone(m, n, b, c);
      DigitsCountMonotone(m / c, n / b, b, c);
    }
  }
}
