/** Products and quotients as repeated addition and subtraction, which is how the
    proofs about rows and numerals use them. */
module Arithmetic {

  function Times(a: nat, b: nat): nat {
    if a == 0 then 0 else Times(a - 1, b) + b
  }

  lemma {:induction false} TimesIsProduct(a: nat, b: nat)
    ensures Times(a, b) == a * b
  {
    if a > 0 {
      TimesIsProduct(a - 1, b);
    }
  }

  lemma {:induction false} Multiply(a: nat, b: nat, c: nat)
    requires a <= b
    ensures Times(a, c) <= Times(b, c)
    decreases b
  {
    if a < b {
      Multiply(a, b - 1, c);
    }
  }

  lemma {:induction false} TimesOfSum(a: nat, b: nat, c: nat)
    ensures Times(a + b, c) == Times(a, c) + Times(b, c)
    decreases b
  {
    if b > 0 {
      TimesOfSum(a, b - 1, c);
    }
  }

  lemma {:induction false} TimesOfTimes(a: nat, b: nat, c: nat)
    ensures Times(Times(a, b), c) == Times(a, Times(b, c))
    decreases a
  {
    if a > 0 {
      TimesOfTimes(a - 1, b, c);
      TimesOfSum(Times(a - 1, b), b, c);
    }
  }

  lemma {:induction false} MultiplyStrictly(a: nat, b: nat, c: nat)
    requires c > 0
    ensures a < b <==> Times(a, c) < Times(b, c)
  {
    if a < b {
      Multiply(a + 1, b, c);
    } else {
      Multiply(b, a, c);
    }
  }

  function Quotient(n: nat, b: nat): (q: nat)
    requires b >= 2
    ensures 2 * q <= n
    ensures n >= b ==> 0 < q < n
  {
    if n < b then 0 else 1 + Quotient(n - b, b)
  }

  function Remainder(n: nat, b: nat): (r: nat)
    requires b >= 2
    ensures r < b
  {
    if n < b then n else Remainder(n - b, b)
  }

  lemma {:induction false} Division(n: nat, b: nat)
    requires b >= 2
    ensures Times(Quotient(n, b), b) + Remainder(n, b) == n
  {
    if n >= b {
      Division(n - b, b);
    }
  }

  lemma {:induction false} Recompose(q: nat, d: nat, b: nat)
    requires b >= 2 && d < b
    ensures Quotient(Times(q, b) + d, b) == q && Remainder(Times(q, b) + d, b) == d
    decreases q
  {
    if q > 0 {
      Recompose(q - 1, d, b);
    }
  }

  lemma {:induction false} QuotientIsDivision(n: nat, b: nat)
    requires b >= 2
    ensures Quotient(n, b) == n / b && Remainder(n, b) == n % b
  {
    Division(n, b);
    TimesIsProduct(Quotient(n, b), b);
    DivisionIsUnique(n, b, Quotient(n, b), Remainder(n, b));
  }

  lemma DivisionIsUnique(n: nat, b: nat, q: nat, r: nat)
    requires b >= 2 && r < b && n == q * b + r
    ensures q == n / b && r == n % b
  {
    var q', r' := n / b, n % b;
    assert n == b * q' + r';
    assert (q - q') * b == r' - r;
    MultipleIsFar(q - q', b);
  }

  lemma MultipleIsFar(k: int, b: int)
    requires b >= 0
    ensures k >= 1 ==> k * b >= b
    ensures k <= -1 ==> k * b <= -b
  {
  }

  lemma FractionIsSmaller(n: nat, d: nat)
    requires d > 0
    ensures 0 <= n / d <= n
  {
    var q, r := n / d, n % d;
    assert n == d * q + r && r >= 0;
    MultipleIsFar(d, q);
  }
}
