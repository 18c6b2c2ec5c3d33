/** Exact real powers, standing in for Python's float `**` with an integer
    exponent. */
module Powers {
  import opened Results

  /** b raised to a natural exponent; `0.0 ** 0` is 1, as in Python. */
  function Pow(b: real, e: nat): (r: real)
    ensures b != 0.0 ==> r != 0.0
    ensures b >= 0.0 ==> r >= 0.0
    ensures 0.0 <= b <= 1.0 ==> r <= 1.0
  {
    if e == 0 then 1.0
    else
      MulFacts(b, Pow(b, e - 1));
      b * Pow(b, e - 1)
  }



  /** Sign and unit-interval facts for one product. */
  lemma MulFacts(a: real, c: real)
    ensures a != 0.0 && c != 0.0 ==> a * c != 0.0
    ensures a >= 0.0 && c >= 0.0 ==> a * c >= 0.0
    ensures 0.0 <= a <= 1.0 && 0.0 <= c <= 1.0 ==> a * c <= 1.0
  {
    if 0.0 <= a <= 1.0 && 0.0 <= c <= 1.0 {
      assert a * c <= 1.0 * c;
    }
  }

  /** Python's `b ** e` for an integer exponent of either sign: a negative
      exponent gives the reciprocal, and `0.0 ** negative` raises
      ZeroDivisionError. */
  function IPow(b: real, e: int): (r: Result<real>)
    ensures r.Err? <==> e < 0 && b == 0.0
    ensures r.Err? ==> r.error == ZeroDivision
    ensures e >= 0 ==> r == Ok(Pow(b, e))
    ensures r.Ok? && e < 0 ==> r.value * Pow(b, -e) == 1.0
    ensures r.Ok? && b >= 0.0 ==> r.value >= 0.0
  {
    if e >= 0 then Ok(Pow(b, e))
    else if b == 0.0 then Err(ZeroDivision)
    else Ok(1.0 / Pow(b, -e))
  }

  // ---------------------------------------------------------------------
  // Real arithmetic helpers

  lemma IntRealMul(b: int, d: int)
    ensures (b * d) as real == b as real * d as real
  {
  }

  lemma RealDivMul(b: int, d: int)
    requires d >= 1
    ensures (b * d) as real / d as real == b as real
  {
    IntRealMul(b, d);
  }

  lemma ProductNonnegative(a: real, b: real, c: real)
    ensures a >= 0.0 && b >= 0.0 && c >= 0.0 ==> a * b * c >= 0.0
  {
    if a >= 0.0 && b >= 0.0 {
      assert a * b >= 0.0;
    }
  }

  lemma RatioPositive(a: int, b: int)
    requires a >= 1 && b >= 1
    ensures a as real / b as real > 0.0
  {
  }

  /** One probability-mass term `coef * px * qx`: a coefficient times the
      two powers, evaluated left to right. */
  function Term(coef: real, px: real, qx: real): (r: real)
    ensures coef >= 0.0 && px >= 0.0 && qx >= 0.0 ==> r >= 0.0
  {
    ProductNonnegative(coef, px, qx);
    coef * px * qx
  }

  /** The mixture `p * y + (1 - p) * z`. */
  function Mix(p: real, y: real, z: real): real
  {
    p * y + (1.0 - p) * z
  }

  /** The real algebra of Pascal's rule applied to one PMF term. */
  lemma PascalTermAlgebra(b1: real, b0: real, p: real, q: real, p1: real, q0: real)
    ensures Term(b1 + b0, p * p1, q * q0) == p * Term(b1, p1, q * q0) + q * Term(b0, p * p1, q0)
  {
    calc {
      (b1 + b0) * (p * p1) * (q * q0);
      b1 * (p * p1) * (q * q0) + b0 * (p * p1) * (q * q0);
      p * (b1 * p1 * (q * q0)) + q * (b0 * (p * p1) * q0);
    }
  }

  /** Pascal's rule on one term, in mixture form: with P = p p1 and
      Q = (1 - p) q0, Term(b1 + b0, P, Q) mixes Term(b1, p1, Q) and
      Term(b0, P, q0) with weight p. */
  lemma PascalTermMix(b1: real, b0: real, p: real, p1: real, q0: real)
    ensures Term(b1 + b0, p * p1, (1.0 - p) * q0)
         == Mix(p, Term(b1, p1, (1.0 - p) * q0), Term(b0, p * p1, q0))
  {
    PascalTermAlgebra(b1, b0, p, 1.0 - p, p1, q0);
  }

  /** A factor (1 - p) on the last power moves outside the term. */
  lemma TermScale(c: real, P: real, p: real, q0: real)
    ensures Term(c, P, (1.0 - p) * q0) == Mix(p, 0.0, Term(c, P, q0))
  {
  }

  /** Congruence for Term, stated so that equal arguments found by
      arithmetic give equal products. */
  lemma TermCong(a: real, b: real, c: real, a2: real, b2: real, c2: real)
    requires a == a2 && b == b2 && c == c2
    ensures Term(a, b, c) == Term(a2, b2, c2)
  {
  }

  /** Mixtures with one weight add componentwise. */
  lemma MixAdd(p: real, y1: real, z1: real, y2: real, z2: real)
    ensures Mix(p, y1, z1) + Mix(p, y2, z2) == Mix(p, y1 + y2, z1 + z2)
  {
  }

  /** A mixture of two probabilities is a probability. */
  lemma MixBounds(p: real, y: real, z: real)
    requires 0.0 <= p <= 1.0 && 0.0 <= y <= 1.0 && 0.0 <= z <= 1.0
    ensures 0.0 <= Mix(p, y, z) <= 1.0
  {
    assert 0.0 <= p * y <= p * 1.0;
    assert 0.0 <= (1.0 - p) * z <= (1.0 - p) * 1.0;
  }
}
