/** Binomial coefficients and Vandermonde's identity. */
module Binomials {
  import opened Naturals

  function Choose(n: nat, k: nat): nat {
    if k == 0 then 1
    else if n == 0 then 0
    else Choose(n - 1, k - 1) + Choose(n - 1, k)
  }

  lemma {:induction false} ChooseTooMany(n: nat, k: nat)
    requires k > n
    ensures Choose(n, k) == 0
  {
    if n > 0 {
      ChooseTooMany(n - 1, k - 1);
      ChooseTooMany(n - 1, k);
    }
  }

  lemma {:induction false} FactorialPositive(n: nat)
    ensures Factorial(n) > 0
  {
    if n > 0 {
      FactorialPositive(n - 1);
      PositiveProduct(n, Factorial(n - 1));
    }
  }

  lemma PositiveProduct(a: nat, b: nat)
    requires a > 0 && b > 0
    ensures a * b > 0
  {
  }

  lemma {:induction false} ChooseFactorial(n: nat, k: nat)
    requires k <= n
    ensures Choose(n, k) * (Factorial(k) * Factorial(n - k)) == Factorial(n)
  {
    if k == 0 {
    } else if k == n {
      ChooseTooMany(n - 1, n);
      ChooseFactorial(n - 1, n - 1);
      FullChoice(Choose(n - 1, n - 1), n, Factorial(n - 1));
    } else {
      ChooseFactorial(n - 1, k - 1);
      ChooseFactorial(n - 1, k);
      PascalStep(Choose(n - 1, k - 1), Choose(n - 1, k), k, n - k, Factorial(k - 1), Factorial(n - k - 1),
                 Factorial(n - 1));
    }
  }

  lemma FullChoice(c: nat, n: nat, f: nat)
    requires n > 0 && c * (f * Factorial(0)) == f
    ensures c * ((n * f) * Factorial(0)) == n * f
  {
    assert c * ((n * f) * 1) == n * (c * (f * 1));
  }

  lemma PascalStep(c1: nat, c2: nat, k: nat, l: nat, f: nat, g: nat, h: nat)
    requires k > 0 && l > 0
    requires c1 * (f * (l * g)) == h
    requires c2 * ((k * f) * g) == h
    ensures (c1 + c2) * ((k * f) * (l * g)) == (k + l) * h
  {
    assert c1 * ((k * f) * (l * g)) == k * (c1 * (f * (l * g)));
    assert c2 * ((k * f) * (l * g)) == l * (c2 * ((k * f) * g));
    assert (c1 + c2) * ((k * f) * (l * g)) == c1 * ((k * f) * (l * g)) + c2 * ((k * f) * (l * g));
  }

  /** The sum over i = 0..n of C(d, i) * C(c, a - i). */
  function Convolution(d: nat, c: nat, a: nat, n: nat): nat
    requires n <= a
  {
    Choose(d, n) * Choose(c, a - n) + if n == 0 then 0 else Convolution(d, c, a, n - 1)
  }

  lemma {:induction false} ConvolutionSplit(d: nat, c: nat, a: nat, n: nat)
    requires d > 0 && n <= a
    ensures Convolution(d, c, a, n) ==
      Convolution(d - 1, c, a, n) + if n == 0 then 0 else Convolution(d - 1, c, a - 1, n - 1)
  {
    if n > 0 {
      ConvolutionSplit(d, c, a, n - 1);
      SumTimes(Choose(d - 1, n - 1), Choose(d - 1, n), Choose(c, a - n));
      assert a - n == (a - 1) - (n - 1);
    }
  }

  lemma SumTimes(a: nat, b: nat, c: nat)
    ensures (a + b) * c == a * c + b * c
  {
  }

  lemma {:induction false} ConvolutionOfNone(c: nat, a: nat, n: nat)
    requires n <= a
    ensures Convolution(0, c, a, n) == Choose(c, a)
  {
    if n > 0 {
      ConvolutionOfNone(c, a, n - 1);
      ChooseTooMany(0, n);
      assert 0 * Choose(c, a - n) == 0;
    }
  }

  lemma {:induction false} Vandermonde(d: nat, c: nat, a: nat)
    ensures Convolution(d, c, a, a) == Choose(d + c, a)
    decreases d, a
  {
    if d == 0 {
      ConvolutionOfNone(c, a, a);
    } else {
      ConvolutionSplit(d, c, a, a);
      Vandermonde(d - 1, c, a);
      if a > 0 {
        Vandermonde(d - 1, c, a - 1);
      }
      assert d + c - 1 == d - 1 + c;
    }
  }
}

/** The conditional distribution of one cell of a contingency table given its margins. */
module Hypergeometric {
  import opened Naturals
  import opened Binomials

  /**
   * The margins of the cell being drawn: ia is what the row still needs, id what the column
   * still has, ie what this column and those to its right still have.
   */
  datatype Margin = Margin(ia: nat, id: nat, ie: nat) {
    predicate Valid() {
      ia <= ie && id <= ie
    }

    function Lo(): nat
      requires Valid()
    {
      if ia + id >= ie then ia + id - ie else 0
    }

    function Hi(): nat
      requires Valid()
    {
      if ia <= id then ia else id
    }

    predicate Feasible(k: int)
      requires Valid()
    {
      Lo() <= k <= Hi()
    }

    /** ii of the code, ib - id with ib = ie - ia; it can be negative. */
    function Offset(): int {
      ie - ia - id
    }
  }

  function F(n: nat): (r: real)
    ensures r > 0.0
  {
    FactorialPositive(n);
    Factorial(n) as real
  }

  lemma PositiveReal(a: real, b: real)
    requires a > 0.0 && b > 0.0
    ensures a * b > 0.0
  {
  }

  lemma Positive4(a: real, b: real, c: real, d: real)
    requires a > 0.0 && b > 0.0 && c > 0.0 && d > 0.0
    ensures (a * b) * (c * d) > 0.0
  {
    PositiveReal(a, b);
    PositiveReal(c, d);
    PositiveReal(a * b, c * d);
  }

  lemma Positive5(e: real, a: real, b: real, c: real, d: real)
    requires e > 0.0 && a > 0.0 && b > 0.0 && c > 0.0 && d > 0.0
    ensures e * ((a * b) * (c * d)) > 0.0
  {
    Positive4(a, b, c, d);
    PositiveReal(e, (a * b) * (c * d));
  }

  function Numerator(m: Margin): (r: real)
    requires m.Valid()
    ensures r > 0.0
  {
    Positive4(F(m.ia), F(m.ie - m.ia), F(m.ie - m.id), F(m.id));
    (F(m.ia) * F(m.ie - m.ia)) * (F(m.ie - m.id) * F(m.id))
  }

  function Denominator(m: Margin, k: nat): (r: real)
    requires m.Valid() && m.Feasible(k)
    ensures r > 0.0
  {
    Positive5(F(m.ie), F(k), F(m.id - k), F(m.ia - k), F(m.Offset() + k));
    F(m.ie) * ((F(k) * F(m.id - k)) * (F(m.ia - k) * F(m.Offset() + k)))
  }

  /** exp of the alternating sum of log-factorials: the probability of the value k. */
  function Weight(m: Margin, k: nat): (w: real)
    requires m.Valid() && m.Feasible(k)
    ensures w > 0.0
  {
    PositiveQuotient(Numerator(m), Denominator(m, k));
    Numerator(m) / Denominator(m, k)
  }

  lemma PositiveQuotient(a: real, b: real)
    requires a > 0.0 && b > 0.0
    ensures a / b > 0.0
  {
  }

  lemma FactorialStep(n: nat)
    ensures F(n + 1) == (n + 1) as real * F(n)
  {
    RealProduct(n + 1, Factorial(n));
  }

  lemma RealProduct(a: int, b: int)
    ensures (a * b) as real == a as real * b as real
  {
  }

  // ----- the recurrences of the two walks -----

  lemma DenominatorStep(m: Margin, k: nat)
    requires m.Valid() && m.Feasible(k) && m.Feasible(k + 1)
    ensures Denominator(m, k + 1) * ((m.id - k) as real * (m.ia - k) as real) ==
      Denominator(m, k) * ((k + 1) as real * (m.Offset() + k + 1) as real)
  {
    hide F;
    FactorialStep(k);
    FactorialStep(m.id - k - 1);
    FactorialStep(m.ia - k - 1);
    FactorialStep(m.Offset() + k);
    ShiftFactors(F(m.ie), F(k), F(m.id - k - 1), F(m.ia - k - 1), F(m.Offset() + k),
                 (m.id - k) as real, (m.ia - k) as real, (k + 1) as real, (m.Offset() + k + 1) as real);
  }

  lemma ShiftFactors(e: real, a: real, b: real, c: real, d: real, p: real, q: real, r: real, s: real)
    ensures e * (((r * a) * b) * (c * (s * d))) * (p * q) == e * ((a * (p * b)) * ((q * c) * d)) * (r * s)
  {
    var t := e * ((a * b) * (c * d));
    assert e * (((r * a) * b) * (c * (s * d))) == t * (r * s);
    assert e * ((a * (p * b)) * ((q * c) * d)) == t * (p * q);
  }

  lemma QuotientStep(n: real, b: real, b': real, c: real, d: real)
    requires b > 0.0 && b' > 0.0 && d > 0.0 && b' * c == b * d
    ensures n / b * c / d == n / b'
  {
    var x := n / b;
    var y := n / b';
    assert n == x * b && n == y * b';
    assert (x * c) * b' == x * (b' * c) == x * (b * d) == (x * b) * d == (y * b') * d == (y * d) * b';
    CancelFactor(x * c, y * d, b');
    assert x * c == y * d;
  }

  lemma CancelFactor(a: real, b: real, c: real)
    requires c > 0.0 && a * c == b * c
    ensures a == b
  {
    assert (a - b) * c == 0.0;
  }

  lemma WeightUp(m: Margin, k: nat)
    requires m.Valid() && m.Feasible(k) && m.Feasible(k + 1)
    ensures (k + 1) as real * (m.Offset() + k + 1) as real > 0.0
    ensures Weight(m, k + 1) ==
      Weight(m, k) * ((m.id - k) as real * (m.ia - k) as real) / ((k + 1) as real * (m.Offset() + k + 1) as real)
  {
    hide Numerator, Denominator;
    PositiveReal((k + 1) as real, (m.Offset() + k + 1) as real);
    DenominatorStep(m, k);
    QuotientStep(Numerator(m), Denominator(m, k), Denominator(m, k + 1),
                 (m.id - k) as real * (m.ia - k) as real, (k + 1) as real * (m.Offset() + k + 1) as real);
  }

  lemma WeightDown(m: Margin, k: nat)
    requires m.Valid() && m.Feasible(k) && m.Feasible(k + 1)
    ensures (m.id - k) as real * (m.ia - k) as real > 0.0
    ensures Weight(m, k) ==
      Weight(m, k + 1) * ((k + 1) as real * (m.Offset() + k + 1) as real) / ((m.id - k) as real * (m.ia - k) as real)
  {
    hide Numerator, Denominator;
    PositiveReal((m.id - k) as real, (m.ia - k) as real);
    DenominatorStep(m, k);
    QuotientStep(Numerator(m), Denominator(m, k + 1), Denominator(m, k),
                 (k + 1) as real * (m.Offset() + k + 1) as real, (m.id - k) as real * (m.ia - k) as real);
  }

  // ----- the weights sum to one -----

  /** Sum of the weights of lo..hi. */
  function Sum(m: Margin, lo: int, hi: int): (s: real)
    requires m.Valid() && m.Lo() <= lo && hi <= m.Hi()
    ensures s >= 0.0
    decreases hi - lo
  {
    if lo > hi then 0.0 else Sum(m, lo, hi - 1) + Weight(m, hi)
  }

  lemma {:induction false} SumFromBelow(m: Margin, lo: int, hi: int)
    requires m.Valid() && m.Lo() <= lo <= hi <= m.Hi()
    ensures Sum(m, lo, hi) == Weight(m, lo) + Sum(m, lo + 1, hi)
    decreases hi - lo
  {
    if lo < hi {
      SumFromBelow(m, lo, hi - 1);
    }
  }

  function Choices(n: nat, k: nat): real {
    Choose(n, k) as real
  }

  lemma ChoicesFactorial(n: nat, k: nat)
    requires k <= n
    ensures Choices(n, k) * (F(k) * F(n - k)) == F(n)
  {
    hide Choose, Factorial;
    ChooseFactorial(n, k);
    RealProduct(Factorial(k), Factorial(n - k));
    RealProduct(Choose(n, k), Factorial(k) * Factorial(n - k));
  }

  lemma WeightAsChoices(m: Margin, k: nat)
    requires m.Valid() && m.Feasible(k)
    ensures Weight(m, k) * Choices(m.ie, m.ia) == Choices(m.id, k) * Choices(m.ie - m.id, m.ia - k)
  {
    hide F, Choices;
    ChoicesFactorial(m.ie, m.ia);
    ChoicesFactorial(m.id, k);
    ChoicesFactorial(m.ie - m.id, m.ia - k);
    var w, d := Weight(m, k), Denominator(m, k);
    assert w * d == Numerator(m);
    Regroup(w, Choices(m.ie, m.ia), Choices(m.id, k), Choices(m.ie - m.id, m.ia - k),
            F(m.ia), F(m.ie - m.ia), F(k), F(m.id - k), F(m.ia - k), F(m.Offset() + k));
  }

  lemma Regroup(w: real, c0: real, c1: real, c2: real, a: real, b: real, k: real, l: real, p: real, q: real)
    requires a > 0.0 && b > 0.0 && k > 0.0 && l > 0.0 && p > 0.0 && q > 0.0
    requires w * ((c0 * (a * b)) * ((k * l) * (p * q))) == (a * b) * ((c2 * (p * q)) * (c1 * (k * l)))
    ensures w * c0 == c1 * c2
  {
    var t := (a * b) * ((k * l) * (p * q));
    PositiveReal(a, b);
    Positive4(k, l, p, q);
    PositiveReal(a * b, (k * l) * (p * q));
    assert w * ((c0 * (a * b)) * ((k * l) * (p * q))) == (w * c0) * t;
    assert (a * b) * ((c2 * (p * q)) * (c1 * (k * l))) == (c1 * c2) * t;
    CancelFactor(w * c0, c1 * c2, t);
  }

  /** The partial sum of the weights up to n. */
  function PartialSum(m: Margin, n: nat): real
    requires m.Valid()
  {
    Sum(m, m.Lo(), if n <= m.Hi() then n else m.Hi())
  }

  lemma PartialSumStep(m: Margin, n: nat)
    requires m.Valid() && n <= m.ia
    ensures (if n == 0 then 0.0 else PartialSum(m, n - 1) * Choices(m.ie, m.ia))
      + Choices(m.id, n) * Choices(m.ie - m.id, m.ia - n) == PartialSum(m, n) * Choices(m.ie, m.ia)
  {
    hide Weight, Choices;
    var c := Choices(m.ie, m.ia);
    if n > m.Hi() || n < m.Lo() {
      NoChoice(m, n);
      assert PartialSum(m, n) == if n == 0 then 0.0 else PartialSum(m, n - 1);
    } else {
      WeightAsChoices(m, n);
      AddScaled(if n == 0 then 0.0 else PartialSum(m, n - 1), Weight(m, n), c);
    }
  }

  lemma NoChoice(m: Margin, n: nat)
    requires m.Valid() && n <= m.ia && !m.Feasible(n)
    ensures Choices(m.id, n) * Choices(m.ie - m.id, m.ia - n) == 0.0
  {
    hide Choose;
    if n > m.Hi() {
      ChooseTooMany(m.id, n);
    } else {
      ChooseTooMany(m.ie - m.id, m.ia - n);
    }
  }

  /** A partial convolution is the partial sum of the weights, scaled. */
  lemma {:induction false} ConvolutionAsSum(m: Margin, n: nat)
    requires m.Valid() && n <= m.ia
    ensures Convolution(m.id, m.ie - m.id, m.ia, n) as real == PartialSum(m, n) * Choices(m.ie, m.ia)
  {
    hide PartialSum, Choose;
    RealProduct(Choose(m.id, n), Choose(m.ie - m.id, m.ia - n));
    PartialSumStep(m, n);
    if n > 0 {
      ConvolutionAsSum(m, n - 1);
    }
  }

  lemma AddScaled(a: real, b: real, c: real)
    ensures (a + b) * c == a * c + b * c
  {
  }

  lemma WholePartialSum(m: Margin)
    requires m.Valid()
    ensures PartialSum(m, m.ia) == 1.0
  {
    hide PartialSum, Choices;
    ConvolutionAsSum(m, m.ia);
    WholeConvolution(m);
    ChoicesPositive(m.ie, m.ia);
    UnitFactor(PartialSum(m, m.ia), Choices(m.ie, m.ia), Convolution(m.id, m.ie - m.id, m.ia, m.ia) as real);
  }

  /** Vandermonde: the weights of all feasible values add up to one. */
  lemma WeightsSumToOne(m: Margin)
    requires m.Valid()
    ensures Sum(m, m.Lo(), m.Hi()) == 1.0
  {
    WholePartialSum(m);
  }

  lemma WholeConvolution(m: Margin)
    requires m.Valid()
    ensures Convolution(m.id, m.ie - m.id, m.ia, m.ia) as real == Choices(m.ie, m.ia)
  {
    Vandermonde(m.id, m.ie - m.id, m.ia);
    assert m.id + (m.ie - m.id) == m.ie;
  }

  lemma UnitFactor(a: real, c: real, x: real)
    requires c > 0.0 && x == c && x == a * c
    ensures a == 1.0
  {
  }

  lemma ChoicesPositive(n: nat, k: nat)
    requires k <= n
    ensures Choices(n, k) > 0.0
  {
    ChoicesFactorial(n, k);
    if Choose(n, k) == 0 {
      assert 0.0 * (F(k) * F(n - k)) == 0.0;
    }
  }
}
