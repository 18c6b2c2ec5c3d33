/** The binomial distribution: `dbinom` (PMF) and `pbinom` (CDF, either
    tail), over exact reals. */
module Binomial {
  import opened Results
  import opened Powers
  import opened Combinatorics

  /** `dbinom(x, size, prob)` as written: the coefficient is the factorial
      ratio size! / (x! (size - x)!) with `factorial`'s 1 for negative
      arguments, then `coef * prob ** x * (1 - prob) ** (size - x)`. A
      negative exponent on a zero base raises ZeroDivisionError. */
  function Dbinom(x: int, size: int, prob: real): (r: Result<real>)
    ensures r.Err? <==> (x < 0 && prob == 0.0) || (x > size && prob == 1.0)
    ensures r.Err? ==> r.error == ZeroDivision
    ensures 0.0 <= prob <= 1.0 && r.Ok? ==> r.value >= 0.0
  {
    var coef := FactorialRatio(size, x);
    var px := IPow(prob, x);
    var qx := IPow(1.0 - prob, size - x);
    if px.Err? then px
    else if qx.Err? then qx
    else
      Ok(Term(coef, px.value, qx.value))
  }

  /** size! / (x! (size - x)!) in true division, `factorial` giving 1 for
      negative arguments. */
  function FactorialRatio(size: int, x: int): (r: real)
    ensures r > 0.0
  {
    RatioPositive(Fact(size), Fact(x) * Fact(size - x));
    Fact(size) as real / (Fact(x) * Fact(size - x)) as real
  }

  /** `sum([dbinom(i, size, prob) for i in range(lo, hi)])`. */
  function SumDbinom(lo: int, hi: int, size: int, prob: real): Result<real>
    decreases hi - lo
  {
    if hi <= lo then Ok(0.0)
    else Add(SumDbinom(lo, hi - 1, size, prob), Dbinom(hi - 1, size, prob))
  }

  /** `pbinom(q, size, prob, lower_tail)`: the lower tail sums i in 0..q,
      the upper tail sums i in q..size, both ends included. */
  function Pbinom(q: int, size: int, prob: real, lowerTail: bool := true): (r: Result<real>)
    ensures lowerTail && q < 0 ==> r == Ok(0.0)
    ensures !lowerTail && q > size ==> r == Ok(0.0)
  {
    if lowerTail then SumDbinom(0, q + 1, size, prob)
    else SumDbinom(q, size + 1, size, prob)
  }

  // ---------------------------------------------------------------------
  // dbinom on its support

  /** On 0 <= x <= size the factorial ratio is exactly the binomial
      coefficient, and `dbinom` is the binomial PMF. */
  lemma DbinomInSupport(x: int, size: int, prob: real)
    requires 0 <= x <= size
    ensures Dbinom(x, size, prob) == Ok(Pmf(x, size, prob))
  {
    FactorialRatioInSupport(size, x);
  }

  /** On its support, for a probability, `dbinom` is at most 1. */
  lemma DbinomAtMostOne(x: int, size: int, prob: real)
    requires 0 <= x <= size && 0.0 <= prob <= 1.0
    ensures Dbinom(x, size, prob).Ok?
    ensures 0.0 <= Dbinom(x, size, prob).value <= 1.0
  {
    DbinomInSupport(x, size, prob);
    SumPmfBounds(x, x + 1, size, prob);
  }

  lemma FactorialRatioInSupport(size: int, x: int)
    requires 0 <= x <= size
    ensures FactorialRatio(size, x) == Binom(size, x) as real
    ensures FactorialRatio(size, x) == Choose(size, x) as real
  {
    BinomFactorial(size, x);
    MulAssoc(Binom(size, x), Fact(x), Fact(size - x));
    RealDivMul(Binom(size, x), Fact(x) * Fact(size - x));
  }

  /** The binomial PMF C(size, x) p^x (1 - p)^(size - x), for 0 <= x <= size. */
  function Pmf(x: int, size: int, prob: real): real
    requires 0 <= x <= size
  {
    Term(Binom(size, x) as real, Pow(prob, x), Pow(1.0 - prob, size - x))
  }

  // ---------------------------------------------------------------------
  // Sums

  lemma {:induction false} SumDbinomSplit(lo: int, mid: int, hi: int, size: int, prob: real)
    requires lo <= mid <= hi
    ensures SumDbinom(lo, hi, size, prob) == Add(SumDbinom(lo, mid, size, prob), SumDbinom(mid, hi, size, prob))
    decreases hi - mid
  {
    if hi > mid {
      SumDbinomSplit(lo, mid, hi - 1, size, prob);
    }
  }

  /** Inside 0..size no term raises. */
  lemma {:induction false} SumDbinomInSupport(lo: int, hi: int, size: int, prob: real)
    requires 0 <= lo && hi <= size + 1
    ensures SumDbinom(lo, hi, size, prob).Ok?
    decreases hi - lo
  {
    if hi > lo {
      SumDbinomInSupport(lo, hi - 1, size, prob);
    }
  }

  lemma {:induction false} SumDbinomNonnegative(lo: int, hi: int, size: int, prob: real)
    requires 0.0 <= prob <= 1.0
    requires SumDbinom(lo, hi, size, prob).Ok?
    ensures SumDbinom(lo, hi, size, prob).value >= 0.0
    decreases hi - lo
  {
    if hi > lo {
      SumDbinomNonnegative(lo, hi - 1, size, prob);
    }
  }

  /** For 0 <= q <= size, lower tail plus (inclusive) upper tail is the
      full-support sum plus `dbinom(q)`: the term at q is counted twice. */
  lemma PbinomTails(q: int, size: int, prob: real)
    requires 0 <= q <= size
    ensures Pbinom(q, size, prob, true).Ok? && Pbinom(q, size, prob, false).Ok?
    ensures SumDbinom(0, size + 1, size, prob).Ok?
    ensures Pbinom(q, size, prob, true).value + Pbinom(q, size, prob, false).value
         == SumDbinom(0, size + 1, size, prob).value + Pmf(q, size, prob)
  {
    SumDbinomInSupport(0, q, size, prob);
    SumDbinomInSupport(q, size + 1, size, prob);
    SumDbinomInSupport(0, size + 1, size, prob);
    SumDbinomSplit(0, q, size + 1, size, prob);
    DbinomInSupport(q, size, prob);
    var below := SumDbinom(0, q, size, prob).value;
    var upper := SumDbinom(q, size + 1, size, prob).value;
    assert SumDbinom(0, q + 1, size, prob) == Ok(below + Pmf(q, size, prob));
    assert SumDbinom(0, size + 1, size, prob) == Ok(below + upper);
  }

  /** The lower tail is non-decreasing in q (wherever it does not raise). */
  lemma PbinomLowerMonotone(q1: int, q2: int, size: int, prob: real)
    requires 0.0 <= prob <= 1.0 && q1 <= q2
    requires Pbinom(q2, size, prob, true).Ok?
    ensures Pbinom(q1, size, prob, true).Ok?
    ensures Pbinom(q1, size, prob, true).value <= Pbinom(q2, size, prob, true).value
  {
    if q1 < 0 {
      SumDbinomNonnegative(0, q2 + 1, size, prob);
    } else {
      SumDbinomSplit(0, q1 + 1, q2 + 1, size, prob);
      SumDbinomNonnegative(q1 + 1, q2 + 1, size, prob);
    }
  }

  // ---------------------------------------------------------------------
  // The full support sums to 1 (the binomial theorem)

  /** The binomial PMF, zero outside 0..size. */
  function PmfOrZero(x: int, size: int, prob: real): real
  {
    if 0 <= x <= size then Pmf(x, size, prob) else 0.0
  }

  /** The sum of `PmfOrZero(i, size, prob)` for i in lo..hi - 1. */
  function SumPmf(lo: int, hi: int, size: int, prob: real): real
    decreases hi - lo
  {
    if hi <= lo then 0.0 else SumPmf(lo, hi - 1, size, prob) + PmfOrZero(hi - 1, size, prob)
  }

  lemma PmfPascalFirst(n: nat, prob: real)
    ensures PmfOrZero(0, n + 1, prob) == Mix(prob, PmfOrZero(-1, n, prob), PmfOrZero(0, n, prob))
  {
    var q := 1.0 - prob;
    TermCong(Binom(n + 1, 0) as real, Pow(prob, 0), Pow(q, n + 1 - 0), 1.0, 1.0, q * Pow(q, n));
    TermCong(Binom(n, 0) as real, Pow(prob, 0), Pow(q, n - 0), 1.0, 1.0, Pow(q, n));
  }

  lemma PmfPascalLast(n: nat, prob: real)
    ensures PmfOrZero(n + 1, n + 1, prob) == Mix(prob, PmfOrZero(n, n, prob), PmfOrZero(n + 1, n, prob))
  {
    var q := 1.0 - prob;
    BinomDiagonal(n);
    BinomDiagonal(n + 1);
    TermCong(Binom(n + 1, n + 1) as real, Pow(prob, n + 1), Pow(q, n + 1 - (n + 1)), 1.0, prob * Pow(prob, n), 1.0);
    TermCong(Binom(n, n) as real, Pow(prob, n), Pow(q, n - n), 1.0, Pow(prob, n), 1.0);
  }

  lemma PmfPascalInner(i: int, n: nat, prob: real)
    requires 1 <= i <= n
    ensures PmfOrZero(i, n + 1, prob) == Mix(prob, PmfOrZero(i - 1, n, prob), PmfOrZero(i, n, prob))
  {
    var b1, b0 := Binom(n, i - 1) as real, Binom(n, i) as real;
    var p1, q0 := Pow(prob, i - 1), Pow(1.0 - prob, n - i);
    PmfPascalTerms(i, n, prob, b1, b0, p1, q0);
    PascalTermMix(b1, b0, prob, p1, q0);
  }

  /** The three PMF values of PmfPascalInner over b1 = C(n, i - 1),
      b0 = C(n, i), p1 = p^(i - 1) and q0 = q^(n - i). */
  lemma PmfPascalTerms(i: int, n: nat, prob: real, b1: real, b0: real, p1: real, q0: real)
    requires 1 <= i <= n
    requires b1 == Binom(n, i - 1) as real && b0 == Binom(n, i) as real
    requires p1 == Pow(prob, i - 1) && q0 == Pow(1.0 - prob, n - i)
    ensures PmfOrZero(i, n + 1, prob) == Term(b1 + b0, prob * p1, (1.0 - prob) * q0)
    ensures PmfOrZero(i - 1, n, prob) == Term(b1, p1, (1.0 - prob) * q0)
    ensures PmfOrZero(i, n, prob) == Term(b0, prob * p1, q0)
  {
    TermCong(Binom(n + 1, i) as real, Pow(prob, i), Pow(1.0 - prob, n + 1 - i),
             b1 + b0, prob * p1, (1.0 - prob) * q0);
    TermCong(Binom(n, i - 1) as real, Pow(prob, i - 1), Pow(1.0 - prob, n - (i - 1)),
             b1, p1, (1.0 - prob) * q0);
    TermCong(Binom(n, i) as real, Pow(prob, i), Pow(1.0 - prob, n - i), b0, prob * p1, q0);
  }

  /** Pascal's rule on PMFs: with q = 1 - p,
      P(i; n + 1) == p P(i - 1; n) + q P(i; n). */
  lemma PmfPascal(i: int, n: nat, prob: real)
    requires 0 <= i <= n + 1
    ensures PmfOrZero(i, n + 1, prob) == Mix(prob, PmfOrZero(i - 1, n, prob), PmfOrZero(i, n, prob))
  {
    if i == 0 {
      PmfPascalFirst(n, prob);
    } else if i == n + 1 {
      PmfPascalLast(n, prob);
    } else {
      PmfPascalInner(i, n, prob);
    }
  }

  /** The sum of the first `hi` entries of `s`. */
  function SeqSum(s: seq<real>, hi: int): real
    requires hi <= |s|
    decreases hi
  {
    if hi <= 0 then 0.0 else SeqSum(s, hi - 1) + s[hi - 1]
  }

  /** Pascal's rule lifted to prefix sums: when every entry of `a` is
      `Mix(p, b[i - 1], b[i])` (the entry before b[0] reads as zero), every
      prefix sum of `a` is the same mix of two prefix sums of `b`. */
  lemma {:induction false} SeqSumPascal(a: seq<real>, b: seq<real>, p: real, j: int)
    requires |a| == |b| + 1 && |b| >= 1
    requires a[0] == Mix(p, 0.0, b[0])
    requires forall i :: 1 <= i < |b| ==> a[i] == Mix(p, b[i - 1], b[i])
    requires 1 <= j <= |b|
    ensures SeqSum(a, j) == Mix(p, SeqSum(b, j - 1), SeqSum(b, j))
    decreases j
  {
    if j > 1 {
      SeqSumPascal(a, b, p, j - 1);
      assert a[j - 1] == Mix(p, b[j - 2], b[j - 1]);
    }
  }

  /** The last entry closes the recurrence: `a` and `b` have the same total. */
  lemma SeqSumPascalWhole(a: seq<real>, b: seq<real>, p: real)
    requires |a| == |b| + 1 && |b| >= 1
    requires a[0] == Mix(p, 0.0, b[0])
    requires forall i :: 1 <= i < |b| ==> a[i] == Mix(p, b[i - 1], b[i])
    requires a[|b|] == Mix(p, b[|b| - 1], 0.0)
    ensures SeqSum(a, |a|) == SeqSum(b, |b|)
  {
    SeqSumPascal(a, b, p, |b|);
  }

  /** The binomial PMF for one size, as the sequence of its values on 0..size. */
  function PmfSeq(size: nat, prob: real): (s: seq<real>)
    ensures |s| == size + 1
    ensures forall i :: 0 <= i <= size ==> s[i] == PmfOrZero(i, size, prob)
  {
    seq(size + 1, i requires 0 <= i <= size => Pmf(i, size, prob))
  }

  lemma {:induction false} SumPmfIsSeqSum(hi: int, size: nat, prob: real)
    requires 0 <= hi <= size + 1
    ensures SumPmf(0, hi, size, prob) == SeqSum(PmfSeq(size, prob), hi)
    decreases hi
  {
    if hi > 0 {
      SumPmfIsSeqSum(hi - 1, size, prob);
    }
  }

  /** The binomial theorem for (p + (1 - p))^size: the PMF over the whole
      support 0..size sums to exactly 1. */
  lemma {:induction false} SumPmfFullSupport(size: nat, prob: real)
    ensures SumPmf(0, size + 1, size, prob) == 1.0
  {
    SumPmfIsSeqSum(size + 1, size, prob);
    if size == 0 {
      assert PmfSeq(0, prob)[0] == PmfOrZero(0, 0, prob);
    } else {
      var n := size - 1;
      SumPmfFullSupport(n, prob);
      SumPmfIsSeqSum(n + 1, n, prob);
      var a, b := PmfSeq(n + 1, prob), PmfSeq(n, prob);
      PmfPascal(0, n, prob);
      PmfPascal(n + 1, n, prob);
      forall i | 1 <= i < |b|
        ensures a[i] == Mix(prob, b[i - 1], b[i])
      {
        PmfPascal(i, n, prob);
      }
      SeqSumPascalWhole(a, b, prob);
    }
  }

  // ---------------------------------------------------------------------
  // pbinom on the support, and at the ends of the support

  lemma {:induction false} SumDbinomIsSumPmf(lo: int, hi: int, size: int, prob: real)
    requires 0 <= lo && hi <= size + 1
    ensures SumDbinom(lo, hi, size, prob) == Ok(SumPmf(lo, hi, size, prob))
    decreases hi - lo
  {
    if hi > lo {
      SumDbinomIsSumPmf(lo, hi - 1, size, prob);
      DbinomInSupport(hi - 1, size, prob);
    }
  }

  /** `pbinom(size, size, prob, True) == 1` and `pbinom(0, size, prob, False) == 1`,
      exactly, for every size >= 0. */
  lemma PbinomWholeSupport(size: int, prob: real)
    requires size >= 0
    ensures Pbinom(size, size, prob, true) == Ok(1.0)
    ensures Pbinom(0, size, prob, false) == Ok(1.0)
  {
    SumDbinomIsSumPmf(0, size + 1, size, prob);
    SumPmfFullSupport(size, prob);
  }

  // ---------------------------------------------------------------------
  // Outside the support

  /** As written, `pbinom` keeps summing past `size`: `dbinom(3, 2, 0.5)`
      is 2! / (3! * 1) * 0.5^3 * 0.5^-1 = 1/12, not 0, so the lower tail
      at q = 3 exceeds 1. In the same way `dbinom(-1, 2, 0.5)` is
      2! / (1 * 3!) * 0.5^-1 * 0.5^3 = 1/12, so the upper tail at q = -1
      exceeds 1 too. */
  lemma PbinomPastSupport()
    ensures Dbinom(3, 2, 0.5) == Ok(1.0 / 12.0)
    ensures Pbinom(3, 2, 0.5) == Ok(13.0 / 12.0)
    ensures Dbinom(-1, 2, 0.5) == Ok(1.0 / 12.0)
    ensures Pbinom(-1, 2, 0.5, false) == Ok(13.0 / 12.0)
  {
    DbinomInSupport(0, 2, 0.5);
    DbinomInSupport(1, 2, 0.5);
    DbinomInSupport(2, 2, 0.5);
    assert Binom(2, 1) == 2;
    assert SumDbinom(0, 3, 2, 0.5) == Ok(1.0);
  }

  /** The binomial CDF with the PMF read as zero outside 0..size: the
      lower tail sums i in 0..q, the upper tail i in q..size. */
  function PbinomSupported(q: int, size: int, prob: real, lowerTail: bool): (r: real)
    ensures 0.0 <= prob <= 1.0 ==> 0.0 <= r <= 1.0
  {
    if lowerTail then
      SumPmfBounds(0, q + 1, size, prob);
      SumPmf(0, q + 1, size, prob)
    else
      SumPmfBounds(q, size + 1, size, prob);
      SumPmf(q, size + 1, size, prob)
  }

  lemma {:induction false} SumPmfSplit(lo: int, mid: int, hi: int, size: int, prob: real)
    requires lo <= mid <= hi
    ensures SumPmf(lo, hi, size, prob) == SumPmf(lo, mid, size, prob) + SumPmf(mid, hi, size, prob)
    decreases hi - mid
  {
    if hi > mid {
      SumPmfSplit(lo, mid, hi - 1, size, prob);
    }
  }

  /** A range that misses 0..size (or an empty support) sums to zero. */
  lemma {:induction false} SumPmfOutside(lo: int, hi: int, size: int, prob: real)
    requires hi <= 0 || size < lo || size < 0
    ensures SumPmf(lo, hi, size, prob) == 0.0
    decreases hi - lo
  {
    if hi > lo {
      SumPmfOutside(lo, hi - 1, size, prob);
    }
  }

  lemma {:induction false} SumPmfNonnegative(lo: int, hi: int, size: int, prob: real)
    requires 0.0 <= prob <= 1.0
    ensures SumPmf(lo, hi, size, prob) >= 0.0
    decreases hi - lo
  {
    if hi > lo {
      SumPmfNonnegative(lo, hi - 1, size, prob);
    }
  }

  /** Every range of the PMF sums to a probability. */
  lemma SumPmfBounds(lo: int, hi: int, size: int, prob: real)
    ensures 0.0 <= prob <= 1.0 ==> 0.0 <= SumPmf(lo, hi, size, prob) <= 1.0
  {
    if 0.0 <= prob <= 1.0 && lo < hi {
      SumPmfNonnegative(lo, hi, size, prob);
      if size < 0 {
        SumPmfOutside(lo, hi, size, prob);
      } else {
        var l := if lo < 0 then lo else 0;
        var h := if hi > size + 1 then hi else size + 1;
        SumPmfSplit(l, lo, h, size, prob);
        SumPmfSplit(lo, hi, h, size, prob);
        SumPmfNonnegative(l, lo, size, prob);
        SumPmfNonnegative(hi, h, size, prob);
        SumPmfSplit(l, 0, h, size, prob);
        SumPmfSplit(0, size + 1, h, size, prob);
        SumPmfOutside(l, 0, size, prob);
        SumPmfOutside(size + 1, h, size, prob);
        SumPmfFullSupport(size, prob);
      }
    }
  }

  /** The supported CDF is `pbinom` wherever `pbinom` stays inside the
      support: the lower tail for q <= size, the upper tail for q >= 0. */
  lemma PbinomSupportedAgrees(q: int, size: int, prob: real)
    ensures q <= size ==> Pbinom(q, size, prob, true) == Ok(PbinomSupported(q, size, prob, true))
    ensures 0 <= q ==> Pbinom(q, size, prob, false) == Ok(PbinomSupported(q, size, prob, false))
  {
    if q <= size {
      if q < 0 {
        SumPmfOutside(0, q + 1, size, prob);
      } else {
        SumDbinomIsSumPmf(0, q + 1, size, prob);
      }
    }
    if 0 <= q {
      if size < q {
        SumPmfOutside(q, size + 1, size, prob);
      } else {
        SumDbinomIsSumPmf(q, size + 1, size, prob);
      }
    }
  }

  /** The supported CDF reaches 1 at the end of the support and stays
      there: the lower tail for every q >= size, the upper tail for every
      q <= 0. */
  lemma PbinomSupportedWhole(q: int, size: int, prob: real)
    requires size >= 0
    ensures size <= q ==> PbinomSupported(q, size, prob, true) == 1.0
    ensures q <= 0 ==> PbinomSupported(q, size, prob, false) == 1.0
  {
    SumPmfFullSupport(size, prob);
    if size <= q {
      SumPmfSplit(0, size + 1, q + 1, size, prob);
      SumPmfOutside(size + 1, q + 1, size, prob);
    }
    if q <= 0 {
      SumPmfSplit(q, 0, size + 1, size, prob);
      SumPmfOutside(q, 0, size, prob);
    }
  }

  lemma PbinomSupportedPastSupport()
    ensures PbinomSupported(3, 2, 0.5, true) == 1.0
  {
    PbinomSupportedWhole(3, 2, 0.5);
  }
}
