/** The integer arithmetic the counting functions rely on: products,
    factorials, powers, falling factorials and binomial coefficients, each
    given by its textbook definition. */
module Arith {

  /** lo * (lo + 1) * ... * hi, and 1 for an empty range. */
  function Product(lo: nat, hi: nat): (p: nat)
    ensures lo >= 1 ==> p >= 1
    decreases if lo <= hi then hi - lo + 1 else 0
  {
    if lo > hi then 1 else lo * Product(lo + 1, hi)
  }

  /** n! = 1 * 2 * ... * n. */
  function Fact(n: nat): (f: nat)
    ensures f >= 1
  {
    Product(1, n)
  }

  /** b raised to the power e, with 0^0 = 1 as JavaScript's `**` has it. */
  function Pow(b: int, e: nat): int {
    if e == 0 then 1 else b * Pow(b, e - 1)
  }

  /** The falling factorial n * (n - 1) * ... * (n - k + 1) of k factors. */
  function Falling(n: nat, k: nat): int {
    if k == 0 then 1 else Falling(n, k - 1) * (n - k + 1)
  }

  /** The binomial coefficient by Pascal's rule. */
  function Binom(n: nat, k: nat): nat {
    if k == 0 then 1
    else if n == 0 then 0
    else Binom(n - 1, k - 1) + Binom(n - 1, k)
  }

  /** Binom(n, 0) + Binom(n, 1) + ... + Binom(n, m - 1). */
  function BinomSum(n: nat, m: nat): nat {
    if m == 0 then 0 else BinomSum(n, m - 1) + Binom(n, m - 1)
  }

  lemma MulAssoc(a: int, b: int, c: int)
    ensures a * (b * c) == (a * b) * c
  {
  }

  lemma {:induction false} ProductSplitLast(lo: nat, hi: nat)
    requires 1 <= lo <= hi
    ensures Product(lo, hi) == Product(lo, hi - 1) * hi
    decreases hi - lo
  {
    if lo < hi {
      ProductSplitLast(lo + 1, hi);
      var p := Product(lo + 1, hi - 1);
      assert Product(lo + 1, hi) == p * hi;
      assert Product(lo, hi - 1) == lo * p;
      MulAssoc(lo, p, hi);
    }
  }

  /** The recurrence n! = n * (n - 1)! for n >= 1. */
  lemma FactStep(n: nat)
    requires n >= 1
    ensures Fact(n) == n * Fact(n - 1)
  {
    ProductSplitLast(1, n);
  }

  lemma FallingStep(n: nat, k: nat)
    requires k >= 1
    ensures Falling(n, k) == Falling(n, k - 1) * (n - (k - 1))
  {
  }

  lemma {:induction false} FallingBelowFact(n: nat, k: nat)
    requires k <= n
    ensures Falling(n, k) >= 1
    ensures Falling(n, k) * Fact(n - k) == Fact(n)
  {
    if k > 0 {
      FallingBelowFact(n, k - 1);
      var x: nat := n - (k - 1);
      FactStep(x);
      assert x - 1 == n - k;
      FallingStep(n, k);
      MulAssoc(Falling(n, k - 1), x, Fact(n - k));
    }
  }

  lemma ExactDivision(a: int, b: int)
    requires b > 0
    ensures (a * b) / b == a
  {
    var q, r := (a * b) / b, (a * b) % b;
    assert a * b == q * b + r && 0 <= r < b;
    assert (a - q) * b == r;
    if a - q >= 1 {
      assert false;
    } else if a - q <= -1 {
      assert false;
    }
  }

  /** n! / (n - k)! is the exact integer n * (n - 1) * ... * (n - k + 1). */
  lemma FallingIsQuotient(n: nat, k: nat)
    requires k <= n
    ensures Fact(n) / Fact(n - k) == Falling(n, k)
  {
    FallingBelowFact(n, k);
    ExactDivision(Falling(n, k), Fact(n - k));
  }

  lemma {:induction false} BinomAbove(n: nat, k: nat)
    requires k > n
    ensures Binom(n, k) == 0
  {
    if n > 0 {
      BinomAbove(n - 1, k - 1);
      BinomAbove(n - 1, k);
    }
  }

  lemma Rearrange(a: int, b: int, c: int, d: int)
    ensures a * ((b * c) * d) == b * (a * (c * d))
    ensures a * (c * (b * d)) == b * (a * (c * d))
  {
  }

  lemma Distribute(a: int, b: int, c: int)
    ensures (a + b) * c == a * c + b * c
  {
  }

  /** Pascal's triangle agrees with the factorial formula: C(n, k) * k! * (n - k)! == n!. */
  lemma {:induction false} BinomTimesFacts(n: nat, k: nat)
    requires k <= n
    ensures Binom(n, k) * (Fact(k) * Fact(n - k)) == Fact(n)
  {
    if k == 0 {
      assert Fact(0) == 1;
    } else {
      var f := Fact(n - 1);
      var a, b := Binom(n - 1, k - 1), Binom(n - 1, k);
      var fk := Fact(k);
      var g := Fact(n - k);
      FactStep(n);
      FactStep(k);
      BinomTimesFacts(n - 1, k - 1);
      assert a * (Fact(k - 1) * g) == f;
      assert a * (fk * g) == k * f by {
        Rearrange(a, k, Fact(k - 1), g);
      }
      if k < n {
        FactStep(n - k);
        BinomTimesFacts(n - 1, k);
        assert b * (fk * Fact(n - 1 - k)) == f;
        assert b * (fk * g) == (n - k) * f by {
          Rearrange(b, n - k, fk, Fact(n - 1 - k));
        }
      } else {
        BinomAbove(n - 1, k);
      }
      assert Binom(n, k) == a + b;
      Distribute(a, b, fk * g);
      Distribute(k, n - k, f);
    }
  }

  /** C(n, k) == n! / (k! * (n - k)!), the division being exact. */
  lemma BinomIsQuotient(n: nat, k: nat)
    requires k <= n
    ensures Fact(n) / (Fact(k) * Fact(n - k)) == Binom(n, k)
  {
    BinomTimesFacts(n, k);
    ExactDivision(Binom(n, k), Fact(k) * Fact(n - k));
  }

  lemma {:induction false} BinomSumPascal(n: nat, m: nat)
    requires n >= 1
    ensures BinomSum(n, m + 1) == BinomSum(n - 1, m) + BinomSum(n - 1, m + 1)
  {
    if m > 0 {
      BinomSumPascal(n, m - 1);
    }
  }

  lemma BinomSumAtLeastOne(n: nat)
    ensures BinomSum(n, n + 1) >= 1
  {
    BinomSumIsPow(n);
    PowPositive(2, n);
  }

  lemma {:induction false} PowPositive(b: int, e: nat)
    requires b >= 1
    ensures Pow(b, e) >= 1
  {
    if e > 0 {
      PowPositive(b, e - 1);
    }
  }

  /** Summing C(n, k) over every size k = 0 .. n gives 2^n. */
  lemma {:induction false} BinomSumIsPow(n: nat)
    ensures BinomSum(n, n + 1) == Pow(2, n)
  {
    if n > 0 {
      BinomSumIsPow(n - 1);
      BinomSumPascal(n, n);
      BinomAbove(n - 1, n);
      assert BinomSum(n - 1, n + 1) == BinomSum(n - 1, n);
    }
  }
}
