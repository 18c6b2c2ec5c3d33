# Discrete distributions over exact integers and reals

This project models `main.py`, a small R-style statistics helper written in
Python. The model has two layers.

- **Integer combinatorics**:
  - `factorial`;
  - `choose`, with its symmetry substitution `k <- n - k` and its interleaved multiply / floor-divide loop;
  - the identical nested helpers `binom` (inside `dnbinom`) and `binomial` (inside `pnbinom`). They divide the falling product `ntok` by `ktok` = m!.

  Each one is a Dafny method with the source's loop. Each is proved against a recursive function:
  - `Fact` is factorial as the source computes it, 1 for every n <= 1;
  - `Choose` is the value `choose` returns over all integers, 0 for k > n and 1 for negative k with k <= n;
  - `Coef` is the value of the nested helpers, 0 for negative k.

  These are all related to `Binom`, the binomial coefficient defined by Pascal's rule.
- **Distributions.** `dbinom`, `pbinom`, `dnbinom`, `pnbinom`, `dhyper` and `phyper` are evaluated over Dafny's exact `real`.
  - Python's `raise` becomes an `Err` result. `Results.Add` makes a sum stop at the first error, as an exception would.
  - `x ** e` with an integer exponent of either sign is `Powers.IPow`. `0.0 ** negative` is Python's ZeroDivisionError.
  - `pnbinom` and `phyper` are methods with the source's accumulating loop. Each is proved equal to a recursive sum.

Module layout:

| file | module | covers |
|---|---|---|
| `results.dfy` | `Results` | error kinds and error propagation |
| `powers.dfy` | `Powers` | exact powers |
| `combinatorics.dfy` | `Combinatorics` | layer 1 |
| `binomial.dfy` | `Binomial` | `dbinom`, `pbinom` |
| `negative_binomial.dfy` | `NegativeBinomial` | `dnbinom`, `pnbinom` |
| `hypergeometric.dfy` | `Hypergeometric` | `dhyper`, `phyper` |

`dbinom` is modelled literally on the whole integer domain. `factorial` returns 1 for negative arguments, so for x outside 0..size the value is a non-zero factorial ratio times `prob ** x * (1 - prob) ** (size - x)`, with a negative exponent where one applies. This is what makes `pbinom` exceed 1 past the support (see Findings).

The nested `binomial` at main.py:77-87 is the same code as `binom` at main.py:51-62. Both are modelled by the one method `Combinatorics.FallingRatioBinom`.

## Model

| member | source | states |
|---|---|---|
| `Combinatorics.Fact` | main.py:4-14 | the value of `factorial` is always at least 1 |
| `Combinatorics.Factorial` | main.py:4-14 | the loop returns n! for n >= 0 (the falling product n * ... * 1), and 1 for every n <= 1 |
| `Combinatorics.BinomFactorial` | main.py:4-35 | C(n, k) * k! * (n - k)! == n! for 0 <= k <= n |
| `Combinatorics.BinomZeroAbove` | main.py:25-26 | C(n, k) is 0 for k > n |
| `Combinatorics.BinomPositive` | main.py:31-35 | C(n, k) >= 1 for 0 <= k <= n |
| `Combinatorics.BinomDiagonal` | main.py:29-30 | C(n, n) == 1 |
| `Combinatorics.BinomSymmetric` | main.py:29-30 | C(n, k) == C(n, n - k) |
| `Combinatorics.BinomAbsorption` | main.py:32-34 | C(n, i + 1) * (i + 1) == C(n, i) * (n - i), so each `//= (i + 1)` of `choose` divides exactly |
| `Combinatorics.ChooseZeroIff` | main.py:25-35 | `choose(n, k)` is 0 exactly when k > n |
| `Combinatorics.ChooseClosedForm` | main.py:17-35 | for 0 <= k <= n, `choose(n, k)` * (k! (n - k)!) == n!, and `choose(n, k)` == n! / (k! (n - k)!) |
| `Combinatorics.ChooseSymmetric` | main.py:29-30 | `choose(n, k) == choose(n, n - k)` for 0 <= k <= n |
| `Combinatorics.ComputeChoose` | main.py:17-35 | the loop returns 0 for k > n and 1 for k <= 0 with k <= n (negative k included); it returns C(n, k) for 0 <= k <= n, whether or not k is replaced by n - k |
| `Combinatorics.FallingFactorial` | main.py:56-59 | after t steps, `ntok` times (n - t)! is n! |
| `Combinatorics.FallingDivisible` | main.py:56-60 | `ktok` = t! divides `ntok` exactly, with quotient C(n, t) |
| `Combinatorics.FallingRatioBinom` | main.py:51-62 | returns C(n, k) for 0 <= k <= n and 0 otherwise; this equals `choose(n, k)` on 0 <= k <= n and is 0 for every negative k |
| `Combinatorics.CoefVersusChoose` | main.py:51-62 | the nested helper and `choose` agree exactly when k >= 0 or k > n; for k < 0 and k <= n the helper gives 0 and `choose` gives 1 |
| `Powers.Pow` | main.py:108 | a power of a non-zero base is non-zero; of a non-negative base, non-negative; of a base in [0, 1], at most 1 |
| `Powers.IPow` | main.py:108 | `b ** e` raises ZeroDivisionError exactly when e < 0 and b == 0; otherwise it is b^e, or for e < 0 the reciprocal of b^-e; it is non-negative for b >= 0 |
| `Results.Add` | main.py:123 | a sum is an error exactly when one operand is, the left error first; otherwise it is the exact sum |
| `Binomial.Dbinom` | main.py:98-108 | `dbinom` raises ZeroDivisionError exactly when x < 0 and prob == 0, or x > size and prob == 1; for a probability its value is non-negative |
| `Binomial.FactorialRatio` | main.py:107 | the coefficient `factorial(size) / (factorial(x) * factorial(size - x))` is always positive |
| `Binomial.FactorialRatioInSupport` | main.py:107 | on 0 <= x <= size the coefficient is exactly C(size, x), which is `choose(size, x)` |
| `Binomial.DbinomInSupport` | main.py:107-108 | on 0 <= x <= size, `dbinom` is the binomial PMF C(size, x) p^x (1 - p)^(size - x) |
| `Binomial.DbinomAtMostOne` | main.py:107-108 | on 0 <= x <= size and for a probability, `dbinom` does not raise and lies in [0, 1] |
| `Binomial.Pbinom` | main.py:112-125 | `lower_tail` defaults to True; the lower tail is 0 for q < 0 and the upper tail is 0 for q > size (empty ranges) |
| `Binomial.SumDbinomSplit` | main.py:123-125 | a sum of `dbinom` over lo..hi splits at any mid point |
| `Binomial.SumDbinomInSupport` | main.py:123-125 | no term inside 0..size raises |
| `Binomial.SumDbinomNonnegative` | main.py:123-125 | for a probability, every sum of `dbinom` that does not raise is non-negative |
| `Binomial.PbinomTails` | main.py:122-125 | for 0 <= q <= size both tails are defined, and lower + upper == the full-support sum + `dbinom(q)`; the upper tail includes q |
| `Binomial.PbinomLowerMonotone` | main.py:123 | for a probability the lower tail is non-decreasing in q |
| `Binomial.PmfPascal` | main.py:107-108 | Pascal's rule on the PMF: P(i; n + 1) == p P(i - 1; n) + (1 - p) P(i; n) |
| `Binomial.SumPmfFullSupport` | main.py:107-108 | the PMF over 0..size sums to exactly 1 (the binomial theorem) |
| `Binomial.SumDbinomIsSumPmf` | main.py:123-125 | inside 0..size a sum of `dbinom` is the sum of the PMF |
| `Binomial.PbinomWholeSupport` | main.py:122-125 | `pbinom(size, size, p, True) == 1` and `pbinom(0, size, p, False) == 1`, exactly, for every p |
| `Binomial.PbinomPastSupport` | main.py:123-125 | as written, `dbinom(3, 2, 0.5)` and `dbinom(-1, 2, 0.5)` are 1/12, so `pbinom(3, 2, 0.5)` (lower tail, the default) and `pbinom(-1, 2, 0.5, False)` are both 13/12 |
| `Binomial.PbinomSupported` | main.py:122-125 | the CDF with the PMF read as 0 outside 0..size lies in [0, 1] for a probability |
| `Binomial.SumPmfSplit` | main.py:123-125 | a sum of the PMF splits at any mid point |
| `Binomial.SumPmfOutside` | main.py:123-125 | a range that misses 0..size adds nothing |
| `Binomial.SumPmfNonnegative` | main.py:123-125 | for a probability, every PMF sum is non-negative |
| `Binomial.SumPmfBounds` | main.py:123-125 | for a probability, every PMF sum lies in [0, 1] |
| `Binomial.PbinomSupportedAgrees` | main.py:122-125 | the supported CDF matches `pbinom` for the lower tail when q <= size, and for the upper tail when q >= 0 |
| `Binomial.PbinomSupportedWhole` | main.py:122-125 | the supported lower tail is 1 for every q >= size, and the upper tail is 1 for every q <= 0 |
| `Binomial.PbinomSupportedPastSupport` | main.py:123 | the supported `pbinom(3, 2, 0.5, True)` is 1 |
| `NegativeBinomial.Dnbinom` | main.py:40-65 | the checks run in order: p outside [0, 1], then r <= 0, then k < 0; these are the only errors, and otherwise the value is non-negative |
| `NegativeBinomial.DnbinomValue` | main.py:65 | once the checks pass, the value is C(r + k - 1, k) p^r (1 - p)^k, with the coefficient equal to `choose(r + k - 1, k)` |
| `NegativeBinomial.DnbinomExample` | main.py:40-65 | `dnbinom(2, 3, 0.5) == 6/32`, and one example of each error |
| `NegativeBinomial.NbTerm` | main.py:92 | a loop term raises ZeroDivisionError exactly when size < 0 and prob == 0; for a probability it is non-negative |
| `NegativeBinomial.Pnbinom` | main.py:69-94 | the loop returns the sum of the terms over i in 0..x with the first error, and 0 for x < 0; for a probability a result that does not raise lies in [0, 1] |
| `NegativeBinomial.SumNbErrorPersists` | main.py:90-94 | once the sum has raised, every longer sum raises the same error |
| `NegativeBinomial.SumNbErrorIff` | main.py:90-94 | `pnbinom` raises exactly when x >= 0, size < 0 and prob == 0, always with ZeroDivisionError |
| `NegativeBinomial.SumNbNonnegative` | main.py:90-94 | for a probability, the sum is non-negative when it does not raise |
| `NegativeBinomial.PnbinomMonotone` | main.py:90-94 | for a probability, `pnbinom` is non-decreasing in x |
| `NegativeBinomial.NbTermIsDnbinom` | main.py:92 | for size >= 1 and a probability, each term is `dnbinom(i, size, prob)`, by C(i + size - 1, size - 1) == C(size + i - 1, i) |
| `NegativeBinomial.PnbinomIsSumDnbinom` | main.py:90-94 | for size >= 1 and a probability, `pnbinom(x)` is the sum of `dnbinom(i)` over 0..x, and never raises |
| `NegativeBinomial.PnbinomExample` | main.py:90-94 | `pnbinom(1, 3, 0.5) == 1/8 + 3/16` |
| `NegativeBinomial.NbTermValue` | main.py:92 | for size >= 1 a loop term never raises; its value is C(i + size - 1, size - 1) p^size (1 - p)^i |
| `NegativeBinomial.NbValuePascal` | main.py:92 | Pascal's rule on the terms: the term at (i + 1, r) is p times the term at (i + 1, r - 1) plus (1 - p) times the term at (i, r), for r >= 2 |
| `NegativeBinomial.SumNbPascal` | main.py:90-94 | for size r >= 2, `pnbinom(x, r)` == p `pnbinom(x, r - 1)` + (1 - p) `pnbinom(x - 1, r)`, all three defined (the first-trial recurrence) |
| `NegativeBinomial.SumNbOne` | main.py:90-94 | for size 1, `pnbinom(x, 1)` == p + (1 - p) `pnbinom(x - 1, 1)`, both defined |
| `NegativeBinomial.SumNbDegenerate` | main.py:90-94 | for size <= 0 every term is 0, so a sum that does not raise is 0 |
| `NegativeBinomial.PnbinomAtMostOne` | main.py:69-94 | for a probability, every value of `pnbinom` that does not raise lies in [0, 1] |
| `NegativeBinomial.DnbinomAtMostOne` | main.py:40-65 | every value of `dnbinom` that does not raise is at most 1 |
| `Hypergeometric.Ratio` | main.py:142 | a true division of a non-negative count by a positive count is non-negative, and 0 when the count is |
| `Hypergeometric.Dhyper` | main.py:129-142 | `dhyper` raises ZeroDivisionError exactly when k > m + n; otherwise it is non-negative, and 0 when x > m or k - x > n |
| `Hypergeometric.DhyperExample` | main.py:139-142 | `dhyper(1, 3, 2, 2) == 6/10`, and `dhyper(0, 3, 2, 6)` raises |
| `Hypergeometric.PhyperTerm` | main.py:155 | a loop term raises exactly when M2 < 0; otherwise it is non-negative |
| `Hypergeometric.Phyper` | main.py:146-156 | the loop with the renamed roles returns the sum of the terms over i in 0..x: 0 for x < 0, and ZeroDivisionError when x >= 0 and M2 < 0 |
| `Hypergeometric.SumPhyperErrorPersists` | main.py:154-156 | once the sum has raised, every longer sum raises the same error |
| `Hypergeometric.SumPhyperErrorIff` | main.py:154-156 | `phyper` raises exactly when x >= 0 and M2 < 0, always with ZeroDivisionError |
| `Hypergeometric.SumPhyperNonnegative` | main.py:154-156 | the sum is non-negative when it does not raise |
| `Hypergeometric.PhyperMonotone` | main.py:146-156 | `phyper` is non-decreasing in x wherever the larger value does not raise |
| `Hypergeometric.PhyperTermPastM1` | main.py:148-155 | with the roles swapped, a term with M1 < i <= n1 and n1 - i <= M2 calls `choose` with a negative k, gets 1, and is strictly positive |
| `Hypergeometric.PhyperExample` | main.py:146-156 | `phyper(2, 3, 2, 2) == 1` |
| `Hypergeometric.DhyperPastSample` | main.py:139-142 | as written, `dhyper(2, 3, 2, 1)` is 3/5, `dhyper(3, 5, 0, 1)` is 2, above 1, and `dhyper(-1, 3, 2, 1)` is 1/5 |
| `Hypergeometric.PhyperPastM1` | main.py:155 | as written, `phyper(2, 1, 2, 2)` is 4/3 |
| `Hypergeometric.DhyperFixed` | main.py:139-142 | the PMF with each factor 0 outside its range raises exactly when k > m + n, and is 0 for x < 0, x > m, x > k or k - x > n |
| `Hypergeometric.DhyperFixedAgrees` | main.py:139-142 | the corrected PMF equals `dhyper` whenever 0 <= x <= k |
| `Hypergeometric.DhyperFixedPastSample` | main.py:140 | the corrected `dhyper(2, 3, 2, 1)` and `dhyper(-1, 3, 2, 1)` are 0 |
| `Hypergeometric.PhyperFixed` | main.py:154-156 | the corrected CDF raises exactly when the range is non-empty and n1 > M1 + M2; otherwise it is non-negative |
| `Hypergeometric.DhyperFixedExample` | main.py:139-142 | the corrected PMF for M1 = 1, M2 = 2, n1 = 2 is 1/3, 2/3, 0 |
| `Hypergeometric.PhyperFixedMonotone` | main.py:154-156 | the corrected CDF is non-decreasing in x wherever the larger value does not raise |
| `Hypergeometric.PhyperFixedPastM1` | main.py:154-156 | the corrected `phyper(2, 1, 2, 2)` is 1 |
| `Hypergeometric.PhyperFixedConstant` | main.py:154-156 | past min(M1, n1) the corrected CDF stays constant |
| `Hypergeometric.Multinomial` | main.py:147-155 | C(a + b, a) C(c + d, c) C(N, a + b) == C(a + c, a) C(b + d, b) C(N, a + c): the swapped roles count the same draws |
| `Hypergeometric.SwapIdentity` | main.py:147-155 | C(n1, i) C(N - n1, M1 - i) C(N, n1) == C(M1, i) C(M2, n1 - i) C(N, M1) for 0 <= i <= M1, with each factor 0 outside its range |
| `Hypergeometric.PhyperTermAgrees` | main.py:155 | for 0 <= i <= M1, M2 >= 0 and 0 <= n1 <= N, the source's term is the hypergeometric PMF at i |
| `Hypergeometric.PhyperAgrees` | main.py:146-156 | for x <= M1, `phyper` is the hypergeometric CDF |
| `Hypergeometric.PhyperIsSumDhyper` | main.py:146-156 | for x <= min(M1, n1), `phyper(x)` is the sum of `dhyper(i, M1, M2, n1)` over 0..x |

## Left out

- Floating point. Every distribution is evaluated over exact reals. IEEE rounding, `OverflowError` on large factorial ratios and on `n / 2` in `choose` (main.py:29) for n beyond the float range, and NaN or infinite probabilities are not modelled.
- Integer versus float results. A Python int `prob` behaves like the same real in these formulas. The source's `cdf = 0` starts as an int; the model does not keep that difference in result type.
- The test `k > n / 2` in `choose` (main.py:29) is a float comparison. The model compares exact reals. Either branch yields C(n, k), so the result does not depend on that choice.
- Python's `//` floors. In `choose` and the nested helpers both operands are non-negative, so Dafny's `/` gives the same value.
- The `isinstance(r, int)` and `isinstance(k, int)` checks (main.py:45, 47). Every parameter is a Dafny `int`.
- The `ValueError` messages. Each check becomes its own error kind.
- The interactive front end (main.py:166-222): console input and printing.
- The commented-out scipy imports (main.py:2-3) and the unimplemented section headers (main.py:159-163).
- `Hypergeometric.Dhyper`: the model does not state that the value is at most 1. As written it is not (`Hypergeometric.DhyperPastSample`), and for the corrected `Hypergeometric.DhyperFixed` the bound needs Vandermonde's identity, which the code does not use.
- The hypergeometric PMF summing to 1 over its support (Vandermonde's identity) is not proved. The binomial PMF summing to 1 is proved (`Binomial.SumPmfFullSupport`).

## Findings

| source | as written | input that shows it | evidently intended | confidence | as-written member | corrected member |
|---|---|---|---|---|---|---|
| main.py:107 | `dbinom` outside 0..size uses `factorial`'s 1 for a negative argument, so it is not 0, and `pbinom` (main.py:123, 125) adds those terms | `pbinom(3, 2, 0.5, True)` = 13/12, and for the upper tail (main.py:125) `pbinom(-1, 2, 0.5, False)` = 13/12 | binomial PMF 0 outside 0..size, so the lower tail is 1 for q >= size and the upper tail is 1 for q <= 0 | not executed | `Binomial.PbinomPastSupport` | `Binomial.PbinomSupported` |
| main.py:140 | `choose(n, k - x)` returns 1 when k - x < 0, and `choose(m, x)` returns 1 when x < 0 | `dhyper(2, 3, 2, 1)` = 3/5 and `dhyper(-1, 3, 2, 1)` = 1/5 | 0 when x exceeds the sample size or is negative | not executed | `Hypergeometric.DhyperPastSample` | `Hypergeometric.DhyperFixed` |
| main.py:155 | with n = M1, `choose(N - M, n - i)` returns 1 for i > M1 | `phyper(2, 1, 2, 2)` = 4/3 | the CDF over 0..x, which is 1 here | not executed | `Hypergeometric.PhyperPastM1` | `Hypergeometric.PhyperFixed` |
