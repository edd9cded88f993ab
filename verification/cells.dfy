/**
 * Cutting a length into steps: the multiplication, quotient, remainder and
 * ceiling that the tile grid is built from.  Each is defined by repeated
 * addition or subtraction, so that every fact about the grid is proved by
 * induction over linear arithmetic; `TimesIs`, `QuotRemIs` and `CeilDivIs`
 * tie them to `*`, `/` and `%`.
 */
module Cells {

  /** a * b, as a copies of b. */
  function Times(a: nat, b: nat): nat {
    if a == 0 then 0 else Times(a - 1, b) + b
  }

  /** i div d: how many whole steps of d fit in i. */
  function Quot(i: nat, d: nat): nat
    requires d > 0
    decreases i
  {
    if i < d then 0 else 1 + Quot(i - d, d)
  }

  /** i mod d: what is left of i after the whole steps. */
  function Rem(i: nat, d: nat): nat
    requires d > 0
    decreases i
  {
    if i < d then i else Rem(i - d, d)
  }

  /** ceil(n / d) for n > 0: the number of steps of d that cover n, the last one possibly partial. */
  function CeilDiv(n: nat, d: nat): nat
    requires n > 0 && d > 0
    decreases n
  {
    if n <= d then 1 else 1 + CeilDiv(n - d, d)
  }

  /** `Times` is multiplication. */
  lemma {:induction false} TimesIs(a: nat, b: nat)
    ensures Times(a, b) == a * b
  {
    if a > 0 {
      TimesIs(a - 1, b);
      assert a * b == (a - 1) * b + b;
    }
  }

  /** More steps reach further: a < b puts b steps at least one step past a steps. */
  lemma {:induction false} TimesStrict(a: nat, b: nat, d: nat)
    requires a < b
    ensures Times(a, d) + d <= Times(b, d)
    decreases b
  {
    if a < b - 1 {
      TimesStrict(a, b - 1, d);
    }
  }

  /** Multiplication is monotone in the step count. */
  lemma {:induction false} TimesLe(a: nat, b: nat, d: nat)
    requires a <= b
    ensures Times(a, d) <= Times(b, d)
  {
    if a < b {
      TimesStrict(a, b, d);
    }
  }

  /** Euclid: i is Quot(i, d) whole steps plus a remainder below d. */
  lemma {:induction false} QuotRem(i: nat, d: nat)
    requires d > 0
    ensures Rem(i, d) < d
    ensures i == Times(Quot(i, d), d) + Rem(i, d)
    decreases i
  {
    if i >= d {
      QuotRem(i - d, d);
    }
  }

  /** The quotient and remainder are the only such pair. */
  lemma {:induction false} QuotRemUnique(i: nat, d: nat, q: nat, m: nat)
    requires d > 0 && m < d && i == Times(q, d) + m
    ensures Quot(i, d) == q && Rem(i, d) == m
    decreases q
  {
    if q > 0 {
      QuotRemUnique(i - d, d, q - 1, m);
    }
  }

  /** `Quot` and `Rem` are Euclidean division and remainder. */
  lemma {:induction false} QuotRemIs(i: nat, d: nat)
    requires d > 0
    ensures Quot(i, d) == i / d && Rem(i, d) == i % d
  {
    var q, m := i / d, i % d;
    TimesIs(q, d);
    QuotRemUnique(i, d, q, m);
  }

  /** CeilDiv(n, d) steps of d cover n, and one step fewer falls short of it. */
  lemma {:induction false} CeilDivBounds(n: nat, d: nat)
    requires n > 0 && d > 0
    ensures CeilDiv(n, d) >= 1
    ensures Times(CeilDiv(n, d) - 1, d) < n <= Times(CeilDiv(n, d), d)
    decreases n
  {
    if n > d {
      CeilDivBounds(n - d, d);
    }
  }

  /** The step count is the only one with those bounds. */
  lemma {:induction false} CeilDivUnique(n: nat, d: nat, k: nat)
    requires n > 0 && d > 0 && k > 0
    requires Times(k - 1, d) < n <= Times(k, d)
    ensures CeilDiv(n, d) == k
  {
    CeilDivBounds(n, d);
    var c := CeilDiv(n, d);
    if c < k {
      TimesLe(c, k - 1, d);
    } else if k < c {
      TimesLe(k, c - 1, d);
    }
  }

  /** ceil(n / d) - 1 is floor((n - 1) / d): the last step starts at the last whole step below n. */
  lemma {:induction false} CeilDivPred(n: nat, d: nat)
    requires n > 0 && d > 0
    ensures CeilDiv(n, d) - 1 == Quot(n - 1, d)
  {
    CeilDivBounds(n, d);
    QuotRem(n - 1, d);
    CeilDivUnique(n, d, Quot(n - 1, d) + 1);
  }

  /** `CeilDiv` is the ceiling (n + d - 1) div d. */
  lemma {:induction false} CeilDivIs(n: nat, d: nat)
    requires n > 0 && d > 0
    ensures CeilDiv(n, d) == (n + d - 1) / d
  {
    CeilDivPred(n, d);
    QuotRem(n - 1, d);
    var q, m := Quot(n - 1, d), Rem(n - 1, d);
    QuotRemUnique(n + d - 1, d, q + 1, m);
    QuotRemIs(n + d - 1, d);
  }
}
