/** Exact integer combinatorics: `factorial`, `choose` and the nested
    `binom`/`binomial` helpers of the negative binomial routines, each as a
    method with the source's loop, proved against `Binom`, the binomial
    coefficient defined by Pascal's rule. */
module Combinatorics {

  /** The value `factorial(n)` returns: n! for n >= 0, and 1 for every
      n <= 1, negative n included, because `range(2, n + 1)` is then empty. */
  function Fact(n: int): (r: nat)
    ensures r >= 1
    decreases n
  {
    if n <= 1 then 1 else n * Fact(n - 1)
  }

  /** The binomial coefficient by Pascal's rule: the reference definition. */
  function Binom(n: nat, k: nat): nat
    decreases n
  {
    if k == 0 then 1
    else if n == 0 then 0
    else Binom(n - 1, k - 1) + Binom(n - 1, k)
  }

  /** The value `choose(n, k)` returns, over all integers: 0 when k > n,
      C(n, k) when 0 <= k <= n, and 1 when k < 0 and k <= n (no guard fires
      and `range(k)` is empty). */
  function Choose(n: int, k: int): nat
  {
    if k > n then 0 else if k <= 0 then 1 else Binom(n, k)
  }

  /** The value the nested `binom(n, k)` / `binomial(n, k)` return: C(n, k)
      when 0 <= k <= n and 0 otherwise. */
  function Coef(n: int, k: int): nat
  {
    if 0 <= k <= n then Binom(n, k) else 0
  }

  /** n * (n - 1) * ... * (n - t + 1), the product the nested helpers
      accumulate in `ntok`. */
  function Falling(n: int, t: nat): int
  {
    if t == 0 then 1 else Falling(n, t - 1) * (n - t + 1)
  }

  // ---------------------------------------------------------------------
  // Arithmetic helpers

  lemma FactStep(n: int)
    requires n >= 1
    ensures Fact(n) == n * Fact(n - 1)
  {
  }

  lemma MulAssoc(a: int, b: int, c: int)
    ensures a * b * c == a * (b * c)
  {
  }

  lemma MulSign(x: int, c: int)
    requires c > 0
    ensures x >= 1 ==> x * c >= c
    ensures x <= -1 ==> x * c <= -c
  {
  }

  lemma MulCancel(a: int, b: int, c: int)
    requires c > 0 && a * c == b * c
    ensures a == b
  {
    assert (a - b) * c == a * c - b * c;
    MulSign(a - b, c);
  }

  lemma DivExact(a: int, b: int)
    requires b > 0
    ensures (a * b) / b == a && (a * b) % b == 0
  {
    var q, r := (a * b) / b, (a * b) % b;
    assert a * b == q * b + r && 0 <= r < b;
    assert (a - q) * b == r;
    MulSign(a - q, b);
  }

  /** The algebra of one Pascal step of the closed form. */
  lemma PascalAlgebra(a: int, b: int, k: int, n: int, fk1: int, fr1: int, fm: int)
    requires a * fk1 * ((n - k) * fr1) == fm
    requires b * (k * fk1) * fr1 == fm
    ensures (a + b) * (k * fk1) * ((n - k) * fr1) == n * fm
  {
    calc {
      (a + b) * (k * fk1) * ((n - k) * fr1);
      a * (k * fk1) * ((n - k) * fr1) + b * (k * fk1) * ((n - k) * fr1);
      k * (a * fk1 * ((n - k) * fr1)) + (n - k) * (b * (k * fk1) * fr1);
      k * fm + (n - k) * fm;
      n * fm;
    }
  }

  /** The algebra of one step of the absorption identity. */
  lemma AbsorptionAlgebra(b1: int, b0: int, k: int, n: int, fk: int, fr: int, f: int)
    requires b1 * ((k + 1) * fk) * fr == f
    requires b0 * fk * ((n - k) * fr) == f
    ensures (b1 * (k + 1)) * (fk * fr) == f
    ensures (b0 * (n - k)) * (fk * fr) == f
  {
    assert b1 * ((k + 1) * fk) * fr == (b1 * (k + 1)) * (fk * fr);
    assert b0 * fk * ((n - k) * fr) == (b0 * (n - k)) * (fk * fr);
  }

  // ---------------------------------------------------------------------
  // Properties of Binom

  lemma {:induction false} BinomZeroAbove(n: nat, k: nat)
    requires k > n
    ensures Binom(n, k) == 0
    decreases n
  {
    if n > 0 {
      BinomZeroAbove(n - 1, k - 1);
      BinomZeroAbove(n - 1, k);
    }
  }

  lemma {:induction false} BinomPositive(n: nat, k: nat)
    requires k <= n
    ensures Binom(n, k) >= 1
    decreases n
  {
    if k > 0 {
      BinomPositive(n - 1, k - 1);
    }
  }

  lemma BinomDiagonal(n: nat)
    ensures Binom(n, n) == 1
  {
    if n > 0 {
      BinomDiagonal(n - 1);
      BinomZeroAbove(n - 1, n);
    }
  }

  /** The closed form: C(n, k) * k! * (n - k)! == n!. */
  lemma {:induction false} BinomFactorial(n: nat, k: nat)
    requires k <= n
    ensures Binom(n, k) * Fact(k) * Fact(n - k) == Fact(n)
    decreases n
  {
    if k == 0 {
    } else if k == n {
      BinomDiagonal(n);
    } else {
      var m := n - 1;
      BinomFactorial(m, k - 1);
      BinomFactorial(m, k);
      FactStep(k);
      FactStep(n - k);
      FactStep(n);
      PascalAlgebra(Binom(m, k - 1), Binom(m, k), k, n, Fact(k - 1), Fact(n - k - 1), Fact(m));
    }
  }

  lemma BinomSymmetric(n: nat, k: nat)
    requires k <= n
    ensures Binom(n, k) == Binom(n, n - k)
  {
    BinomFactorial(n, k);
    BinomFactorial(n, n - k);
    MulAssoc(Binom(n, k), Fact(k), Fact(n - k));
    MulAssoc(Binom(n, n - k), Fact(n - k), Fact(k));
    MulCancel(Binom(n, k), Binom(n, n - k), Fact(k) * Fact(n - k));
  }

  /** C(n, k + 1) * (k + 1) == C(n, k) * (n - k): each step of `choose`'s
      loop divides exactly. */
  lemma BinomAbsorption(n: nat, k: nat)
    requires k < n
    ensures Binom(n, k + 1) * (k + 1) == Binom(n, k) * (n - k)
  {
    BinomFactorial(n, k);
    BinomFactorial(n, k + 1);
    FactStep(k + 1);
    FactStep(n - k);
    var fk, fr := Fact(k), Fact(n - k - 1);
    AbsorptionAlgebra(Binom(n, k + 1), Binom(n, k), k, n, fk, fr, Fact(n));
    MulCancel(Binom(n, k + 1) * (k + 1), Binom(n, k) * (n - k), fk * fr);
  }

  lemma {:induction false} FallingFactorial(n: nat, t: nat)
    requires t <= n
    ensures Falling(n, t) * Fact(n - t) == Fact(n)
  {
    if t > 0 {
      FallingFactorial(n, t - 1);
      FactStep(n - t + 1);
      MulAssoc(Falling(n, t - 1), n - t + 1, Fact(n - t));
    }
  }

  /** `ktok` = t! divides `ntok` = n * ... * (n - t + 1) exactly, with
      quotient C(n, t). */
  lemma FallingDivisible(n: nat, t: nat)
    requires t <= n
    ensures Falling(n, t) == Binom(n, t) * Fact(t)
    ensures Falling(n, t) % Fact(t) == 0 && Falling(n, t) / Fact(t) == Binom(n, t)
  {
    FallingFactorial(n, t);
    BinomFactorial(n, t);
    MulCancel(Falling(n, t), Binom(n, t) * Fact(t), Fact(n - t));
    DivExact(Binom(n, t), Fact(t));
  }

  // ---------------------------------------------------------------------
  // Properties of Choose and Coef

  /** `choose` returns 0 exactly when k > n. */
  lemma ChooseZeroIff(n: int, k: int)
    ensures Choose(n, k) == 0 <==> k > n
  {
    if 0 < k <= n {
      BinomPositive(n, k);
    }
  }

  /** For 0 <= k <= n, `choose(n, k)` is n! / (k! (n - k)!), exactly. */
  lemma ChooseClosedForm(n: int, k: int)
    requires 0 <= k <= n
    ensures Choose(n, k) * (Fact(k) * Fact(n - k)) == Fact(n)
    ensures Choose(n, k) == Fact(n) / (Fact(k) * Fact(n - k))
  {
    BinomFactorial(n, k);
    MulAssoc(Binom(n, k), Fact(k), Fact(n - k));
    assert Choose(n, k) == Binom(n, k);
    DivExact(Binom(n, k), Fact(k) * Fact(n - k));
  }

  lemma ChooseSymmetric(n: int, k: int)
    requires 0 <= k <= n
    ensures Choose(n, k) == Choose(n, n - k)
  {
    BinomSymmetric(n, k);
    if k == 0 {
      BinomDiagonal(n);
    } else if k == n {
      BinomDiagonal(n);
    }
  }

  /** The nested helpers agree with `choose` exactly when k >= 0 or k > n;
      when k < 0 and k <= n the helpers return 0 and `choose` returns 1. */
  lemma CoefVersusChoose(n: int, k: int)
    ensures Coef(n, k) == Choose(n, k) <==> (k >= 0 || k > n)
    ensures k < 0 && k <= n ==> Coef(n, k) == 0 && Choose(n, k) == 1
  {
  }

  // ---------------------------------------------------------------------
  // The source's loops

  /** `factorial(n)`: multiplies `result` by 2, 3, ..., n. */
  method Factorial(n: int) returns (result: int)
    ensures result == Fact(n)
    ensures n >= 0 ==> result == Falling(n, n)
  {
    result := 1;
    var i := 2;
    while i <= n
      invariant 2 <= i <= if n < 2 then 2 else n + 1
      invariant result == Fact(i - 1)
    {
      result := result * i;
      i := i + 1;
    }
    if n >= 0 {
      FallingFactorial(n, n);
    }
  }

  /** `choose(n, k)`: after the two guards and the substitution k <- n - k
      for k > n / 2, the loop multiplies by (n - i) and floor-divides by
      (i + 1); every division is exact. */
  method ComputeChoose(n: int, k: int) returns (result: int)
    ensures result == Choose(n, k)
    ensures k > n ==> result == 0
    ensures k <= 0 && k <= n ==> result == 1
    ensures 0 <= k <= n ==> result == Binom(n, k)
  {
    if k > n {
      return 0;
    }
    if k == 0 {
      return 1;
    }
    var k' := k;
    if k' as real > n as real / 2.0 {
      k' := n - k';
    }
    result := 1;
    var i := 0;
    while i < k'
      invariant k' < 0 ==> i == 0 && result == 1
      invariant k' >= 0 ==> 0 < k <= n && 0 <= i <= k' <= n && result == Binom(n, i)
    {
      BinomAbsorption(n, i);
      result := result * (n - i);
      DivExact(Binom(n, i + 1), i + 1);
      result := result / (i + 1);
      i := i + 1;
    }
    if k' >= 0 && k' != k {
      BinomSymmetric(n, k);
    }
  }

  /** The nested `binom(n, k)` of dnbinom, and its copy `binomial(n, k)`
      in pnbinom: m = min(k, n - k) steps of `ntok *= n; ktok *= t; n -= 1`,
      then `ntok // ktok`. */
  method FallingRatioBinom(n: int, k: int) returns (result: int)
    ensures result == Coef(n, k)
    ensures 0 <= k <= n ==> result == Choose(n, k)
    ensures k < 0 ==> result == 0
  {
    if 0 <= k <= n {
      var ntok, ktok := 1, 1;
      var top := n;
      var m := if k < n - k then k else n - k;
      var t := 1;
      while t <= m
        invariant 1 <= t <= m + 1
        invariant top == n - (t - 1)
        invariant ntok == Falling(n, t - 1)
        invariant ktok == Fact(t - 1)
      {
        ntok := ntok * top;
        ktok := ktok * t;
        top := top - 1;
        t := t + 1;
      }
      FallingDivisible(n, m);
      result := ntok / ktok;
      BinomSymmetric(n, k);
      ChooseSymmetric(n, k);
    } else {
      result := 0;
    }
  }
}
