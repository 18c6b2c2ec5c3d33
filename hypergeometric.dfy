/** The hypergeometric distribution: `dhyper` (PMF) and `phyper` (CDF), over
    exact reals, with `choose` as the source writes it. */
module Hypergeometric {
  import opened Results
  import opened Powers
  import opened Combinatorics

  /** num / den for a non-negative numerator and a positive denominator. */
  function Ratio(num: nat, den: nat): (r: real)
    requires den >= 1
    ensures r >= 0.0
    ensures num == 0 ==> r == 0.0
  {
    num as real / den as real
  }

  /** `dhyper(x, m, n, k)`: choose(m, x) * choose(n, k - x) / choose(m + n, k),
      in true division, which raises ZeroDivisionError when the denominator
      is 0. */
  function Dhyper(x: int, m: int, n: int, k: int): (r: Result<real>)
    ensures r.Err? <==> k > m + n
    ensures r.Err? ==> r.error == ZeroDivision
    ensures r.Ok? ==> r.value >= 0.0
    ensures r.Ok? && (x > m || k - x > n) ==> r.value == 0.0
  {
    ChooseZeroIff(m + n, k);
    ChooseZeroIff(m, x);
    ChooseZeroIff(n, k - x);
    var den := Choose(m + n, k);
    if den == 0 then Err(ZeroDivision)
    else Ok(Ratio(Choose(m, x) * Choose(n, k - x), den))
  }

  lemma DhyperExample()
    ensures Dhyper(1, 3, 2, 2) == Ok(6.0 / 10.0)
    ensures Dhyper(0, 3, 2, 6) == Err(ZeroDivision)
  {
    assert Binom(3, 1) == 3 && Binom(2, 1) == 2 && Binom(5, 2) == 10;
  }

  // ---------------------------------------------------------------------
  // phyper as written

  /** Term i of `phyper(x, M1, M2, n1)`: with N = M1 + M2, n = M1 and
      M = n1, it is choose(n1, i) * choose(N - n1, M1 - i) / choose(N, M1). */
  function PhyperTerm(i: int, M1: int, M2: int, n1: int): (r: Result<real>)
    ensures r.Err? <==> M2 < 0
    ensures r.Err? ==> r.error == ZeroDivision
    ensures r.Ok? ==> r.value >= 0.0
  {
    ChooseZeroIff(M1 + M2, M1);
    var den := Choose(M1 + M2, M1);
    if den == 0 then Err(ZeroDivision)
    else Ok(Ratio(Choose(n1, i) * Choose(M1 + M2 - n1, M1 - i), den))
  }

  /** The sum of PhyperTerm(i) for i in 0..hi - 1, stopping at the first error. */
  function SumPhyper(hi: int, M1: int, M2: int, n1: int): Result<real>
    decreases hi
  {
    if hi <= 0 then Ok(0.0)
    else Add(SumPhyper(hi - 1, M1, M2, n1), PhyperTerm(hi - 1, M1, M2, n1))
  }

  /** `phyper(x, M1, M2, n1)`: renames N, n, M, k as the source does, then
      accumulates the terms for i in range(k + 1). */
  method Phyper(x: int, M1: int, M2: int, n1: int) returns (cdf: Result<real>)
    ensures cdf == SumPhyper(x + 1, M1, M2, n1)
    ensures x < 0 ==> cdf == Ok(0.0)
    ensures x >= 0 && M2 < 0 ==> cdf == Err(ZeroDivision)
  {
    var N := M1 + M2;
    var n := M1;
    var M := n1;
    var k := x;
    var acc := 0.0;
    var i := 0;
    while i < k + 1
      invariant 0 <= i <= if k + 1 < 0 then 0 else k + 1
      invariant SumPhyper(i, M1, M2, n1) == Ok(acc)
      decreases k + 1 - i
    {
      var a := ComputeChoose(M, i);
      var b := ComputeChoose(N - M, n - i);
      var d := ComputeChoose(N, n);
      if d == 0 {
        SumPhyperErrorPersists(i + 1, x + 1, M1, M2, n1);
        return Err(ZeroDivision);
      }
      acc := acc + Ratio(a * b, d);
      i := i + 1;
    }
    SumPhyperErrorIff(x + 1, M1, M2, n1);
    return Ok(acc);
  }

  /** Once the sum has raised, every longer sum raises the same error. */
  lemma {:induction false} SumPhyperErrorPersists(i: int, j: int, M1: int, M2: int, n1: int)
    requires i <= j
    requires SumPhyper(i, M1, M2, n1).Err?
    ensures SumPhyper(j, M1, M2, n1) == SumPhyper(i, M1, M2, n1)
    decreases j - i
  {
    if j > i {
      SumPhyperErrorPersists(i, j - 1, M1, M2, n1);
    }
  }

  /** `phyper` raises exactly when its loop runs and choose(N, M1) is 0,
      that is when M2 < 0. */
  lemma {:induction false} SumPhyperErrorIff(hi: int, M1: int, M2: int, n1: int)
    ensures SumPhyper(hi, M1, M2, n1).Err? <==> hi >= 1 && M2 < 0
    ensures SumPhyper(hi, M1, M2, n1).Err? ==> SumPhyper(hi, M1, M2, n1).error == ZeroDivision
    decreases hi
  {
    if hi > 0 {
      SumPhyperErrorIff(hi - 1, M1, M2, n1);
    }
  }

  lemma {:induction false} SumPhyperNonnegative(hi: int, M1: int, M2: int, n1: int)
    requires SumPhyper(hi, M1, M2, n1).Ok?
    ensures SumPhyper(hi, M1, M2, n1).value >= 0.0
    decreases hi
  {
    if hi > 0 {
      SumPhyperNonnegative(hi - 1, M1, M2, n1);
    }
  }

  /** The CDF as written is non-decreasing in x wherever it does not
      raise. */
  lemma {:induction false} PhyperMonotone(x1: int, x2: int, M1: int, M2: int, n1: int)
    requires x1 <= x2
    requires SumPhyper(x2 + 1, M1, M2, n1).Ok?
    ensures SumPhyper(x1 + 1, M1, M2, n1).Ok?
    ensures SumPhyper(x1 + 1, M1, M2, n1).value <= SumPhyper(x2 + 1, M1, M2, n1).value
    decreases x2 - x1
  {
    if x1 < x2 {
      SumPhyperErrorIff(x2, M1, M2, n1);
      SumPhyperErrorIff(x2 + 1, M1, M2, n1);
      PhyperMonotone(x1, x2 - 1, M1, M2, n1);
    }
  }

  /** With the roles swapped, a term with i > M1 asks `choose` for a
      negative k and gets 1, so it is not 0 when i <= n1 and the remaining
      population is large enough. */
  lemma PhyperTermPastM1(i: int, M1: int, M2: int, n1: int)
    requires 0 <= M1 < i <= n1 && M2 >= 0 && M1 - i <= M1 + M2 - n1
    ensures Choose(M1 + M2 - n1, M1 - i) == 1
    ensures PhyperTerm(i, M1, M2, n1).Ok? && PhyperTerm(i, M1, M2, n1).value > 0.0
  {
    ChooseZeroIff(n1, i);
    ChooseZeroIff(M1 + M2, M1);
    RatioPositive(Choose(n1, i), Choose(M1 + M2, M1));
  }

  lemma PhyperExample()
    ensures SumPhyper(3, 3, 2, 2) == Ok(1.0)
  {
    assert Binom(5, 3) == 10 && Binom(3, 2) == 3 && Binom(2, 1) == 2;
    assert PhyperTerm(0, 3, 2, 2) == Ok(1.0 / 10.0);
    assert PhyperTerm(1, 3, 2, 2) == Ok(6.0 / 10.0);
    assert PhyperTerm(2, 3, 2, 2) == Ok(3.0 / 10.0);
  }

  // ---------------------------------------------------------------------
  // Outside the support

  /** As written, `dhyper(2, 3, 2, 1)` asks for choose(2, -1), which is 1,
      so drawing 2 successes in a sample of 1 gets probability 3/5; and
      `dhyper(3, 5, 0, 1)` gets choose(5, 3) / choose(5, 1) = 2, more
      than 1. The first factor has the same flaw: `dhyper(-1, 3, 2, 1)`
      asks for choose(3, -1), which is 1, and gets 1/5 instead of 0. */
  lemma DhyperPastSample()
    ensures Dhyper(2, 3, 2, 1) == Ok(3.0 / 5.0)
    ensures Dhyper(3, 5, 0, 1) == Ok(2.0)
    ensures Dhyper(-1, 3, 2, 1) == Ok(1.0 / 5.0)
  {
    assert Binom(3, 2) == 3 && Binom(5, 1) == 5;
    assert Binom(5, 3) == 10;
  }

  /** As written, `phyper(2, 1, 2, 2)` adds a term for i = 2 > M1 and
      exceeds 1. */
  lemma PhyperPastM1()
    ensures SumPhyper(3, 1, 2, 2) == Ok(4.0 / 3.0)
  {
    assert Binom(3, 1) == 3 && Binom(2, 1) == 2;
    assert PhyperTerm(0, 1, 2, 2) == Ok(1.0 / 3.0);
    assert PhyperTerm(1, 1, 2, 2) == Ok(2.0 / 3.0);
    assert PhyperTerm(2, 1, 2, 2) == Ok(1.0 / 3.0);
  }

  /** `dhyper` with each factor read as zero outside 0..m and 0..n, as the
      nested `binom` helpers do. */
  function DhyperFixed(x: int, m: int, n: int, k: int): (r: Result<real>)
    ensures r.Err? <==> k > m + n
    ensures r.Err? ==> r.error == ZeroDivision
    ensures r.Ok? ==> r.value >= 0.0
    ensures r.Ok? && (x < 0 || x > m || x > k || k - x > n) ==> r.value == 0.0
  {
    ChooseZeroIff(m + n, k);
    var den := Choose(m + n, k);
    if den == 0 then Err(ZeroDivision)
    else Ok(Ratio(Coef(m, x) * Coef(n, k - x), den))
  }

  /** The corrected PMF is the source's wherever 0 <= x <= k, the only
      place where `choose`'s 1 for negative k can reach it. */
  lemma DhyperFixedAgrees(x: int, m: int, n: int, k: int)
    requires 0 <= x <= k
    ensures Dhyper(x, m, n, k) == DhyperFixed(x, m, n, k)
  {
    CoefVersusChoose(m, x);
    CoefVersusChoose(n, k - x);
  }

  lemma DhyperFixedPastSample()
    ensures DhyperFixed(2, 3, 2, 1) == Ok(0.0)
    ensures DhyperFixed(-1, 3, 2, 1) == Ok(0.0)
  {
  }

  /** The sum of DhyperFixed(i, M1, M2, n1) for i in 0..hi - 1: the
      hypergeometric CDF with M1 successes, M2 failures and n1 draws. */
  function PhyperFixed(hi: int, M1: int, M2: int, n1: int): (r: Result<real>)
    ensures r.Err? <==> hi >= 1 && n1 > M1 + M2
    ensures r.Ok? ==> r.value >= 0.0
    decreases hi
  {
    if hi <= 0 then Ok(0.0)
    else Add(PhyperFixed(hi - 1, M1, M2, n1), DhyperFixed(hi - 1, M1, M2, n1))
  }

  /** The corrected CDF is non-decreasing in x wherever it does not
      raise. */
  lemma {:induction false} PhyperFixedMonotone(x1: int, x2: int, M1: int, M2: int, n1: int)
    requires x1 <= x2
    requires PhyperFixed(x2 + 1, M1, M2, n1).Ok?
    ensures PhyperFixed(x1 + 1, M1, M2, n1).Ok?
    ensures PhyperFixed(x1 + 1, M1, M2, n1).value <= PhyperFixed(x2 + 1, M1, M2, n1).value
    decreases x2 - x1
  {
    if x1 < x2 {
      PhyperFixedMonotone(x1, x2 - 1, M1, M2, n1);
    }
  }

  lemma PhyperFixedPastM1()
    ensures PhyperFixed(3, 1, 2, 2) == Ok(1.0)
  {
    DhyperFixedExample();
    assert PhyperFixed(1, 1, 2, 2) == Ok(1.0 / 3.0);
    assert PhyperFixed(2, 1, 2, 2) == Ok(1.0);
  }

  lemma DhyperFixedExample()
    ensures DhyperFixed(0, 1, 2, 2) == Ok(1.0 / 3.0)
    ensures DhyperFixed(1, 1, 2, 2) == Ok(2.0 / 3.0)
    ensures DhyperFixed(2, 1, 2, 2) == Ok(0.0)
  {
    DhyperFixedNoSuccess();
    DhyperFixedOneSuccess();
  }

  lemma DhyperFixedNoSuccess()
    ensures DhyperFixed(0, 1, 2, 2) == Ok(1.0 / 3.0)
  {
    assert Binom(3, 2) == 3 && Binom(2, 2) == 1;
  }

  lemma DhyperFixedOneSuccess()
    ensures DhyperFixed(1, 1, 2, 2) == Ok(2.0 / 3.0)
  {
    assert Binom(3, 2) == 3 && Binom(2, 1) == 2;
  }

  /** Past min(M1, n1) the corrected CDF adds only zeros. */
  lemma {:induction false} PhyperFixedConstant(hi: int, M1: int, M2: int, n1: int)
    requires M2 >= 0 && 0 <= n1 <= M1 + M2
    requires hi >= 1 && (hi - 1 >= M1 || hi - 1 >= n1)
    ensures PhyperFixed(hi + 1, M1, M2, n1) == PhyperFixed(hi, M1, M2, n1)
  {
    assert DhyperFixed(hi, M1, M2, n1) == Ok(0.0);
  }

  // ---------------------------------------------------------------------
  // The swapped roles are harmless below M1

  lemma Regroup(x: int, y: int, z: int, p1: int, p2: int, p3: int, p4: int, P: int, Q: int, F: int)
    requires x * p1 * p2 == P
    requires y * p3 * p4 == Q
    requires z * P * Q == F
    ensures (x * y * z) * ((p1 * p2) * (p3 * p4)) == F
  {
    calc {
      (x * y * z) * ((p1 * p2) * (p3 * p4));
      z * ((x * p1 * p2) * (y * p3 * p4));
      z * P * Q;
    }
  }

  lemma Shuffle(a: int, b: int, c: int, d: int)
    ensures (a * c) * (b * d) == (a * b) * (c * d)
  {
  }

  /** Choosing a + b of N = a + b + c + d, then a of those a + b and c of
      the other c + d, fixes all four groups: the count times a! b! c! d!
      is N!. */
  lemma GroupCount(a: nat, b: nat, c: nat, d: nat)
    ensures Binom(a + b, a) * Binom(c + d, c) * Binom(a + b + c + d, a + b)
            * ((Fact(a) * Fact(b)) * (Fact(c) * Fact(d)))
         == Fact(a + b + c + d)
  {
    var N := a + b + c + d;
    BinomFactorial(a + b, a);
    BinomFactorial(c + d, c);
    BinomFactorial(N, a + b);
    assert (a + b) - a == b && (c + d) - c == d && N - (a + b) == c + d;
    Regroup(Binom(a + b, a), Binom(c + d, c), Binom(N, a + b), Fact(a), Fact(b), Fact(c), Fact(d),
            Fact(a + b), Fact(c + d), Fact(N));
  }

  /** Both ways of counting draws give N! / (a! b! c! d!): with a = i
      successes drawn, b = n1 - i failures drawn, c = M1 - i successes left
      and d = M2 - n1 + i failures left,
      C(a + b, a) C(c + d, c) C(N, a + b) == C(a + c, a) C(b + d, b) C(N, a + c). */
  lemma Multinomial(a: nat, b: nat, c: nat, d: nat)
    ensures Binom(a + b, a) * Binom(c + d, c) * Binom(a + b + c + d, a + b)
         == Binom(a + c, a) * Binom(b + d, b) * Binom(a + b + c + d, a + c)
  {
    GroupCount(a, b, c, d);
    GroupCount(a, c, b, d);
    assert a + c + b + d == a + b + c + d;
    CancelGroups(Binom(a + b, a) * Binom(c + d, c) * Binom(a + b + c + d, a + b),
                 Binom(a + c, a) * Binom(b + d, b) * Binom(a + b + c + d, a + c),
                 Fact(a), Fact(b), Fact(c), Fact(d), Fact(a + b + c + d));
  }

  lemma CancelGroups(x: int, y: int, fa: int, fb: int, fc: int, fd: int, f: int)
    requires fa >= 1 && fb >= 1 && fc >= 1 && fd >= 1
    requires x * ((fa * fb) * (fc * fd)) == f
    requires y * ((fa * fc) * (fb * fd)) == f
    ensures x == y
  {
    Shuffle(fa, fb, fc, fd);
    assert fa * fb >= 1 && fc * fd >= 1 by {
      MulSign(fa, fb);
      MulSign(fc, fd);
    }
    MulSign(fa * fb, fc * fd);
    MulCancel(x, y, (fa * fb) * (fc * fd));
  }

  /** The cross product of the two forms of the term, with every factor
      zero outside its range: the source's form (sample n1 playing
      "successes") against the standard one. */
  lemma SwapIdentity(i: int, M1: int, M2: int, n1: int)
    requires 0 <= i <= M1 && M2 >= 0 && 0 <= n1 <= M1 + M2
    ensures Coef(n1, i) * Coef(M1 + M2 - n1, M1 - i) * Binom(M1 + M2, n1)
         == Coef(M1, i) * Coef(M2, n1 - i) * Binom(M1 + M2, M1)
  {
    if i <= n1 && n1 - i <= M2 {
      Multinomial(i, n1 - i, M1 - i, M2 - n1 + i);
    }
  }

  /** a / b == c / d for positive b, d once a d == c b. */
  lemma RatioEq(a: nat, b: nat, c: nat, d: nat)
    requires b >= 1 && d >= 1 && a * d == c * b
    ensures Ratio(a, b) == Ratio(c, d)
  {
    IntRealMul(a, d);
    IntRealMul(c, b);
    var r := a as real / b as real;
    assert r * b as real == a as real;
    assert (r * d as real) * b as real == c as real * b as real;
  }

  /** Below M1 the source's term is the corrected PMF at i. */
  lemma PhyperTermAgrees(i: int, M1: int, M2: int, n1: int)
    requires 0 <= i <= M1 && M2 >= 0 && 0 <= n1 <= M1 + M2
    ensures PhyperTerm(i, M1, M2, n1) == DhyperFixed(i, M1, M2, n1)
  {
    CoefVersusChoose(n1, i);
    CoefVersusChoose(M1 + M2 - n1, M1 - i);
    BinomPositive(M1 + M2, M1);
    BinomPositive(M1 + M2, n1);
    SwapIdentity(i, M1, M2, n1);
    RatioEq(Coef(n1, i) * Coef(M1 + M2 - n1, M1 - i), Binom(M1 + M2, M1),
            Coef(M1, i) * Coef(M2, n1 - i), Binom(M1 + M2, n1));
  }

  /** `phyper(x)` is the hypergeometric CDF for x <= M1. */
  lemma {:induction false} PhyperAgrees(x: int, M1: int, M2: int, n1: int)
    requires x <= M1 && M2 >= 0 && 0 <= n1 <= M1 + M2
    ensures SumPhyper(x + 1, M1, M2, n1) == PhyperFixed(x + 1, M1, M2, n1)
    decreases x
  {
    if x >= 0 {
      PhyperAgrees(x - 1, M1, M2, n1);
      PhyperTermAgrees(x, M1, M2, n1);
    }
  }

  /** The sum of dhyper(i, M1, M2, n1) for i in 0..hi - 1, as written. */
  function SumDhyper(hi: int, M1: int, M2: int, n1: int): Result<real>
    decreases hi
  {
    if hi <= 0 then Ok(0.0)
    else Add(SumDhyper(hi - 1, M1, M2, n1), Dhyper(hi - 1, M1, M2, n1))
  }

  /** CDF = sum of PMFs: for x <= min(M1, n1), `phyper(x)` is the sum of
      `dhyper(i)` over 0..x. */
  lemma {:induction false} PhyperIsSumDhyper(x: int, M1: int, M2: int, n1: int)
    requires x <= M1 && x <= n1 && M2 >= 0 && 0 <= n1 <= M1 + M2
    ensures SumPhyper(x + 1, M1, M2, n1) == SumDhyper(x + 1, M1, M2, n1)
    decreases x
  {
    if x >= 0 {
      PhyperIsSumDhyper(x - 1, M1, M2, n1);
      PhyperTermAgrees(x, M1, M2, n1);
      DhyperFixedAgrees(x, M1, M2, n1);
    }
  }
}
