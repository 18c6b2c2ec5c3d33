/** The negative binomial distribution in R's parameterisation (failures
    before the size-th success): `dnbinom` (PMF) and `pnbinom` (CDF), over
    exact reals. */
module NegativeBinomial {
  import opened Results
  import opened Powers
  import opened Combinatorics

  /** `dnbinom(k, r, p)`: the three input checks in their order, then
      binom(r + k - 1, k) * p^r * (1 - p)^k with the nested `binom`. */
  function Dnbinom(k: int, r: int, p: real): (res: Result<real>)
    ensures res.Err? <==> p < 0.0 || p > 1.0 || r <= 0 || k < 0
    ensures p < 0.0 || p > 1.0 ==> res == Err(InvalidProbability)
    ensures 0.0 <= p <= 1.0 && r <= 0 ==> res == Err(InvalidSuccessCount)
    ensures 0.0 <= p <= 1.0 && r > 0 && k < 0 ==> res == Err(InvalidFailureCount)
    ensures res.Ok? ==> res.value >= 0.0
  {
    if p < 0.0 || p > 1.0 then Err(InvalidProbability)
    else if r <= 0 then Err(InvalidSuccessCount)
    else if k < 0 then Err(InvalidFailureCount)
    else Ok(Term(Coef(r + k - 1, k) as real, Pow(p, r), Pow(1.0 - p, k)))
  }

  /** Once the checks pass, the coefficient is the true binomial
      coefficient C(r + k - 1, k) and `choose` computes the same number. */
  lemma DnbinomValue(k: int, r: int, p: real)
    requires 0.0 <= p <= 1.0 && r > 0 && k >= 0
    ensures Dnbinom(k, r, p) == Ok(Term(Binom(r + k - 1, k) as real, Pow(p, r), Pow(1.0 - p, k)))
    ensures Dnbinom(k, r, p) == Ok(Term(Choose(r + k - 1, k) as real, Pow(p, r), Pow(1.0 - p, k)))
  {
  }

  lemma DnbinomExample()
    ensures Dnbinom(2, 3, 0.5) == Ok(6.0 / 32.0)
    ensures Dnbinom(2, 3, -0.1) == Err(InvalidProbability)
    ensures Dnbinom(2, 0, 0.5) == Err(InvalidSuccessCount)
    ensures Dnbinom(-1, 3, 0.5) == Err(InvalidFailureCount)
  {
    assert Binom(4, 2) == 6;
  }

  // ---------------------------------------------------------------------
  // pnbinom

  /** Term i of `pnbinom`'s sum:
      binomial(i + size - 1, size - 1) * prob ** size * (1 - prob) ** i.
      `prob ** size` raises ZeroDivisionError for prob == 0 and size < 0. */
  function NbTerm(i: nat, size: int, prob: real): (r: Result<real>)
    ensures r.Err? <==> size < 0 && prob == 0.0
    ensures r.Err? ==> r.error == ZeroDivision
    ensures 0.0 <= prob <= 1.0 && r.Ok? ==> r.value >= 0.0
  {
    var ps := IPow(prob, size);
    if ps.Err? then ps
    else Ok(Term(Coef(i + size - 1, size - 1) as real, ps.value, Pow(1.0 - prob, i)))
  }

  /** The sum of NbTerm(i) for i in 0..hi - 1, stopping at the first error. */
  function SumNb(hi: int, size: int, prob: real): Result<real>
    decreases hi
  {
    if hi <= 0 then Ok(0.0)
    else Add(SumNb(hi - 1, size, prob), NbTerm(hi - 1, size, prob))
  }

  /** `pnbinom(x, size, prob)`: accumulates the terms for i in range(x + 1). */
  method Pnbinom(x: int, size: int, prob: real) returns (cdf: Result<real>)
    ensures cdf == SumNb(x + 1, size, prob)
    ensures x < 0 ==> cdf == Ok(0.0)
    ensures 0.0 <= prob <= 1.0 && cdf.Ok? ==> 0.0 <= cdf.value <= 1.0
  {
    var acc := 0.0;
    var i := 0;
    while i < x + 1
      invariant 0 <= i <= if x + 1 < 0 then 0 else x + 1
      invariant SumNb(i, size, prob) == Ok(acc)
      decreases x + 1 - i
    {
      var c := FallingRatioBinom(i + size - 1, size - 1);
      var ps := IPow(prob, size);
      if ps.Err? {
        SumNbErrorPersists(i + 1, x + 1, size, prob);
        return ps;
      }
      acc := acc + Term(c as real, ps.value, Pow(1.0 - prob, i));
      i := i + 1;
    }
    if 0.0 <= prob <= 1.0 {
      PnbinomAtMostOne(x, size, prob);
    }
    return Ok(acc);
  }

  /** Once the sum has raised, every longer sum raises the same error. */
  lemma {:induction false} SumNbErrorPersists(i: int, j: int, size: int, prob: real)
    requires i <= j
    requires SumNb(i, size, prob).Err?
    ensures SumNb(j, size, prob) == SumNb(i, size, prob)
    decreases j - i
  {
    if j > i {
      SumNbErrorPersists(i, j - 1, size, prob);
    }
  }

  /** `pnbinom` raises exactly when the loop runs and prob ** size divides
      by zero. */
  lemma {:induction false} SumNbErrorIff(hi: int, size: int, prob: real)
    ensures SumNb(hi, size, prob).Err? <==> hi >= 1 && size < 0 && prob == 0.0
    ensures SumNb(hi, size, prob).Err? ==> SumNb(hi, size, prob).error == ZeroDivision
    decreases hi
  {
    if hi > 0 {
      SumNbErrorIff(hi - 1, size, prob);
    }
  }

  lemma {:induction false} SumNbNonnegative(hi: int, size: int, prob: real)
    requires 0.0 <= prob <= 1.0
    requires SumNb(hi, size, prob).Ok?
    ensures SumNb(hi, size, prob).value >= 0.0
    decreases hi
  {
    if hi > 0 {
      SumNbNonnegative(hi - 1, size, prob);
    }
  }

  /** For a probability, the CDF is non-decreasing in x. */
  lemma {:induction false} PnbinomMonotone(x1: int, x2: int, size: int, prob: real)
    requires 0.0 <= prob <= 1.0 && x1 <= x2
    requires SumNb(x2 + 1, size, prob).Ok?
    ensures SumNb(x1 + 1, size, prob).Ok?
    ensures SumNb(x1 + 1, size, prob).value <= SumNb(x2 + 1, size, prob).value
    decreases x2 - x1
  {
    if x1 < x2 {
      SumNbErrorIff(x2, size, prob);
      PnbinomMonotone(x1, x2 - 1, size, prob);
      if x2 >= 0 {
        assert SumNb(x2 + 1, size, prob).value
            == SumNb(x2, size, prob).value + NbTerm(x2, size, prob).value;
      }
    }
  }

  /** Each term of `pnbinom` is `dnbinom` at the same point: for valid
      parameters, C(i + size - 1, size - 1) == C(size + i - 1, i). */
  lemma NbTermIsDnbinom(i: nat, size: int, prob: real)
    requires 0.0 <= prob <= 1.0 && size >= 1
    ensures NbTerm(i, size, prob) == Dnbinom(i, size, prob)
  {
    BinomSymmetric(i + size - 1, size - 1);
    assert Coef(i + size - 1, size - 1) == Coef(size + i - 1, i);
  }

  /** The sum of dnbinom(i, size, prob) for i in 0..hi - 1. */
  function SumDnbinom(hi: int, size: int, prob: real): Result<real>
    decreases hi
  {
    if hi <= 0 then Ok(0.0)
    else Add(SumDnbinom(hi - 1, size, prob), Dnbinom(hi - 1, size, prob))
  }

  /** CDF = sum of PMFs: for valid parameters `pnbinom(x)` is the sum of
      `dnbinom(i)` over 0..x. */
  lemma {:induction false} PnbinomIsSumDnbinom(x: int, size: int, prob: real)
    requires 0.0 <= prob <= 1.0 && size >= 1
    ensures SumNb(x + 1, size, prob) == SumDnbinom(x + 1, size, prob)
    ensures SumNb(x + 1, size, prob).Ok?
    decreases x
  {
    if x >= 0 {
      PnbinomIsSumDnbinom(x - 1, size, prob);
      NbTermIsDnbinom(x, size, prob);
    }
  }

  lemma PnbinomExample()
    ensures SumNb(2, 3, 0.5) == Ok(1.0 / 8.0 + 3.0 / 16.0)
  {
    assert Binom(2, 2) == 1;
    assert Binom(3, 2) == 3;
  }

  // ---------------------------------------------------------------------
  // pnbinom is at most 1

  /** Term x of `pnbinom` for size >= 1, where no term raises:
      C(x + size - 1, size - 1) p^size (1 - p)^x. */
  function NbValue(x: nat, size: int, p: real): real
    requires size >= 1
  {
    Term(Coef(x + size - 1, size - 1) as real, Pow(p, size), Pow(1.0 - p, x))
  }

  lemma NbTermValue(x: nat, size: int, p: real)
    requires size >= 1
    ensures NbTerm(x, size, p) == Ok(NbValue(x, size, p))
  {
  }

  /** Pascal's rule on one term: with q = 1 - p, the chance of exactly
      m + 1 failures before the (n + 2)-th success splits on the first
      trial, T(m + 1, n + 2) == p T(m + 1, n + 1) + q T(m, n + 2). */
  lemma NbValuePascal(m: nat, n: nat, p: real)
    ensures NbValue(m + 1, n + 2, p) == Mix(p, NbValue(m + 1, n + 1, p), NbValue(m, n + 2, p))
  {
    var b1, b0 := Binom(m + n + 1, n) as real, Binom(m + n + 1, n + 1) as real;
    var p1, q0 := Pow(p, n + 1), Pow(1.0 - p, m);
    NbValuePascalTerms(m, n, p, b1, b0, p1, q0);
    PascalTermMix(b1, b0, p, p1, q0);
  }

  /** The three terms of NbValuePascal over b1 = C(m + n + 1, n),
      b0 = C(m + n + 1, n + 1), p1 = p^(n + 1) and q0 = q^m. */
  lemma NbValuePascalTerms(m: nat, n: nat, p: real, b1: real, b0: real, p1: real, q0: real)
    requires b1 == Binom(m + n + 1, n) as real && b0 == Binom(m + n + 1, n + 1) as real
    requires p1 == Pow(p, n + 1) && q0 == Pow(1.0 - p, m)
    ensures NbValue(m + 1, n + 2, p) == Term(b1 + b0, p * p1, (1.0 - p) * q0)
    ensures NbValue(m + 1, n + 1, p) == Term(b1, p1, (1.0 - p) * q0)
    ensures NbValue(m, n + 2, p) == Term(b0, p * p1, q0)
  {
    assert Coef(m + 1 + (n + 2) - 1, n + 2 - 1) == Binom(m + n + 1, n) + Binom(m + n + 1, n + 1);
    TermCong(Coef(m + 1 + (n + 2) - 1, n + 2 - 1) as real, Pow(p, n + 2), Pow(1.0 - p, m + 1),
             b1 + b0, p * p1, (1.0 - p) * q0);
    TermCong(Coef(m + 1 + (n + 1) - 1, n + 1 - 1) as real, Pow(p, n + 1), Pow(1.0 - p, m + 1),
             b1, p1, (1.0 - p) * q0);
    TermCong(Coef(m + (n + 2) - 1, n + 2 - 1) as real, Pow(p, n + 2), Pow(1.0 - p, m),
             b0, p * p1, q0);
  }

  /** With no failures, T(0, r) == p T(0, r - 1). */
  lemma NbValueFirst(r: int, p: real)
    requires r >= 2
    ensures NbValue(0, r, p) == Mix(p, NbValue(0, r - 1, p), 0.0)
  {
    var q := 1.0 - p;
    BinomDiagonal(r - 1);
    BinomDiagonal(r - 2);
    TermCong(Coef(r - 1, r - 1) as real, Pow(p, r), Pow(q, 0), 1.0, p * Pow(p, r - 1), 1.0);
    TermCong(Coef(r - 2, r - 2) as real, Pow(p, r - 1), Pow(q, 0), 1.0, Pow(p, r - 1), 1.0);
  }

  /** For one success, T(0, 1) == p and T(x, 1) == q T(x - 1, 1). */
  lemma NbValueOne(x: nat, p: real)
    ensures NbValue(x, 1, p) == if x == 0 then p else Mix(p, 0.0, NbValue(x - 1, 1, p))
  {
    var q := 1.0 - p;
    var p1 := Pow(p, 1);
    assert p1 == p * Pow(p, 0) == p;
    if x == 0 {
      TermCong(Coef(x, 0) as real, Pow(p, 1), Pow(q, x), 1.0, p1, 1.0);
    } else {
      var q0 := Pow(q, x - 1);
      TermCong(Coef(x, 0) as real, Pow(p, 1), Pow(q, x), 1.0, p1, q * q0);
      TermCong(Coef(x - 1, 0) as real, Pow(p, 1), q0, 1.0, p1, q0);
      TermScale(1.0, p1, p, q0);
    }
  }

  /** The CDF splits on the first trial:
      F(x, r) == p F(x, r - 1) + q F(x - 1, r). */
  lemma {:induction false} SumNbPascal(x: int, r: int, p: real)
    requires r >= 2 && x >= 0
    ensures SumNb(x + 1, r, p).Ok? && SumNb(x + 1, r - 1, p).Ok? && SumNb(x, r, p).Ok?
    ensures SumNb(x + 1, r, p).value == Mix(p, SumNb(x + 1, r - 1, p).value, SumNb(x, r, p).value)
    decreases x
  {
    SumNbErrorIff(x + 1, r, p);
    SumNbErrorIff(x + 1, r - 1, p);
    SumNbErrorIff(x, r, p);
    NbTermValue(x, r, p);
    NbTermValue(x, r - 1, p);
    if x == 0 {
      NbValueFirst(r, p);
    } else {
      SumNbPascal(x - 1, r, p);
      NbTermValue(x - 1, r, p);
      NbValuePascal(x - 1, r - 2, p);
      MixAdd(p, SumNb(x, r - 1, p).value, SumNb(x - 1, r, p).value,
             NbValue(x, r - 1, p), NbValue(x - 1, r, p));
    }
  }

  /** For one success, F(0, 1) == p and F(x, 1) == p + q F(x - 1, 1). */
  lemma {:induction false} SumNbOne(x: int, p: real)
    requires x >= 0
    ensures SumNb(x + 1, 1, p).Ok? && SumNb(x, 1, p).Ok?
    ensures SumNb(x + 1, 1, p).value == Mix(p, 1.0, SumNb(x, 1, p).value)
    decreases x
  {
    SumNbErrorIff(x + 1, 1, p);
    SumNbErrorIff(x, 1, p);
    NbTermValue(x, 1, p);
    NbValueOne(x, p);
    if x > 0 {
      SumNbOne(x - 1, p);
      NbTermValue(x - 1, 1, p);
      MixAdd(p, 1.0, SumNb(x - 1, 1, p).value, 0.0, NbValue(x - 1, 1, p));
    }
  }

  /** With no successes required (size <= 0) every coefficient is 0, so
      the sum is 0 wherever it does not raise. */
  lemma {:induction false} SumNbDegenerate(hi: int, size: int, prob: real)
    requires size <= 0 && SumNb(hi, size, prob).Ok?
    ensures SumNb(hi, size, prob).value == 0.0
    decreases hi
  {
    if hi > 0 {
      SumNbErrorIff(hi - 1, size, prob);
      SumNbErrorIff(hi, size, prob);
      SumNbDegenerate(hi - 1, size, prob);
    }
  }

  /** For a probability, `pnbinom` lies in [0, 1] wherever it does not
      raise. */
  lemma {:induction false} PnbinomAtMostOne(x: int, size: int, prob: real)
    requires 0.0 <= prob <= 1.0 && SumNb(x + 1, size, prob).Ok?
    ensures 0.0 <= SumNb(x + 1, size, prob).value <= 1.0
    decreases size, x + 1
  {
    SumNbNonnegative(x + 1, size, prob);
    if size <= 0 {
      SumNbDegenerate(x + 1, size, prob);
    } else if x >= 0 {
      SumNbErrorIff(x, size, prob);
      if size == 1 {
        SumNbOne(x, prob);
        PnbinomAtMostOne(x - 1, 1, prob);
        MixBounds(prob, 1.0, SumNb(x, 1, prob).value);
      } else {
        SumNbPascal(x, size, prob);
        PnbinomAtMostOne(x, size - 1, prob);
        PnbinomAtMostOne(x - 1, size, prob);
        MixBounds(prob, SumNb(x + 1, size - 1, prob).value, SumNb(x, size, prob).value);
      }
    }
  }

  /** For valid parameters `dnbinom` is at most 1: it is one term of the
      CDF, and the other terms are non-negative. */
  lemma DnbinomAtMostOne(k: int, r: int, p: real)
    requires Dnbinom(k, r, p).Ok?
    ensures Dnbinom(k, r, p).value <= 1.0
  {
    PnbinomIsSumDnbinom(k, r, p);
    PnbinomAtMostOne(k, r, p);
    SumNbNonnegative(k, r, p);
    SumNbErrorIff(k, r, p);
    NbTermIsDnbinom(k, r, p);
  }
}
