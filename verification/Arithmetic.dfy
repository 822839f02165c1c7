/** Products and quotients by variable numbers, as repeated addition and subtraction: in this form
    the verifier needs linear arithmetic only. */
module Arithmetic {

  /** The product n * t. */
  function Times(n: nat, t: nat): nat {
    if n == 0 then 0 else Times(n - 1, t) + t
  }

  lemma {:induction false} TimesIsProduct(n: nat, t: nat)
    ensures Times(n, t) == n * t
  {
    if n > 0 {
      TimesIsProduct(n - 1, t);
      assert n * t == (n - 1) * t + t;
    }
  }

  lemma {:induction false} TimesOfSum(n: nat, s: nat, t: nat)
    ensures Times(n, s + t) == Times(n, s) + Times(n, t)
  {
    if n > 0 {
      TimesOfSum(n - 1, s, t);
    }
  }

  lemma {:induction false} TimesOfFactors(m: nat, n: nat, t: nat)
    ensures Times(m + n, t) == Times(m, t) + Times(n, t)
  {
    if n > 0 {
      TimesOfFactors(m, n - 1, t);
    }
  }

  lemma TimesIsMonotone(n: nat, s: nat, t: nat)
    requires s <= t
    ensures Times(n, s) <= Times(n, t)
  {
    TimesOfSum(n, s, t - s);
  }

  lemma FactorIsMonotone(m: nat, n: nat, t: nat)
    requires m <= n
    ensures Times(m, t) <= Times(n, t)
  {
    TimesOfFactors(m, n - m, t);
  }

  lemma {:induction false} TimesCommutes(m: nat, n: nat)
    ensures Times(m, n) == Times(n, m)
  {
    TimesIsProduct(m, n);
    TimesIsProduct(n, m);
  }

  lemma Regroup(a: nat, b: nat, c: nat)
    ensures (a * b) * c == a * (b * c)
  {
  }

  lemma TimesOfTimes(m: nat, n: nat, t: nat)
    ensures Times(n, Times(m, t)) == Times(m, Times(n, t))
    ensures Times(n, m * t) == m * Times(n, t)
  {
    TimesIsProduct(n, Times(m, t));
    TimesIsProduct(m, t);
    TimesIsProduct(m, Times(n, t));
    TimesIsProduct(n, t);
    TimesIsProduct(n, m * t);
    Regroup(n, m, t);
    Regroup(m, n, t);
  }

  /** The quotient a / n. */
  function Quotient(a: nat, n: nat): nat
    requires n > 0
  {
    if a < n then 0 else Quotient(a - n, n) + 1
  }

  /** The remainder a % n. */
  function Remainder(a: nat, n: nat): (r: nat)
    requires n > 0
    ensures r < n
  {
    if a < n then a else Remainder(a - n, n)
  }

  lemma {:induction false} QuotientAndRemainder(a: nat, n: nat)
    requires n > 0
    ensures a == Times(Quotient(a, n), n) + Remainder(a, n)
  {
    if a >= n {
      QuotientAndRemainder(a - n, n);
    }
  }

  lemma {:induction false} QuotientOfTimes(q: nat, r: nat, n: nat)
    requires r < n
    ensures Quotient(Times(q, n) + r, n) == q && Remainder(Times(q, n) + r, n) == r
  {
    if q > 0 {
      QuotientOfTimes(q - 1, r, n);
      assert Times(q, n) + r - n == Times(q - 1, n) + r;
    }
  }

  lemma QuotientIs(a: nat, q: nat, r: nat, n: nat)
    requires a == q * n + r && r < n
    ensures Quotient(a, n) == q && Remainder(a, n) == r
  {
    TimesIsProduct(q, n);
    QuotientOfTimes(q, r, n);
  }

  lemma QuotientIsDivision(a: nat, n: nat)
    requires n > 0
    ensures Quotient(a, n) == a / n && Remainder(a, n) == a % n
  {
    QuotientIs(a, a / n, a % n, n);
  }
}
