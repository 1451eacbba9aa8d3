/** The end of fftmx: the table of block sizes, and the reordering that uses it. */
module FftFinish {
  import opened Basics
  import opened Naturals
  import opened FactorSplits
  import opened FftFactor
  import opened FftRotate

  lemma DivideFirst(jc: nat, f: nat, rest: nat)
    requires f > 0
    ensures jc * (f * rest) / f == jc * rest
  {
    assert jc * (f * rest) == f * (jc * rest);
    MultipleMod(f, jc * rest);
  }

  ghost function All(sq: seq<nat>, mid: seq<nat>): (all: seq<nat>)
    ensures |all| == 2 * |sq| + |mid| && forall i :: 0 <= i < |sq| ==> all[i] == sq[i]
  {
    sq + mid + Reverse(sq)
  }

  /** The block size after division by the first j factors. */
  ghost function Falling(sq: seq<nat>, mid: seq<nat>, jc: nat, j: nat): nat
    requires j <= |sq|
  {
    jc * Product(All(sq, mid)[j..])
  }

  /** The block size after multiplication by the first j factors. */
  ghost function Rising(sq: seq<nat>, jc: nat, j: nat): nat
    requires j <= |sq|
  {
    jc * Product(sq[..j])
  }

  lemma NextFalling(sq: seq<nat>, mid: seq<nat>, jc: nat, j: nat)
    requires j < |sq| && sq[j] > 0
    ensures Falling(sq, mid, jc, j) / sq[j] == Falling(sq, mid, jc, j + 1)
  {
    var all := All(sq, mid);
    hide All;
    var f, tail, rest := sq[j], all[j..], all[j + 1..];
    assert tail[0] == f && tail[1..] == rest;
    assert Product(tail) == f * Product(rest);
    hide Product;
    DivideFirst(jc, f, Product(rest));
  }

  lemma NextRising(sq: seq<nat>, jc: nat, j: nat)
    requires j < |sq|
    ensures Rising(sq, jc, j) * sq[j] == Rising(sq, jc, j + 1)
  {
    var a, b := sq[..j], sq[..j + 1];
    assert b == a + [sq[j]];
    ProductSnoc(a, sq[j]);
    hide Product;
    MulAssoc(jc, Product(a), sq[j]);
  }

  lemma FirstSizes(sq: seq<nat>, mid: seq<nat>, jc: nat)
    ensures Falling(sq, mid, jc, 0) == jc * Product(All(sq, mid)) && Rising(sq, jc, 0) == jc
  {
    assert All(sq, mid)[0..] == All(sq, mid) && sq[..0] == [];
    assert jc * 1 == jc;
  }

  /** In the middle the sizes are those of all middle factors and one half of the squares. */
  lemma MiddleSizes(sq: seq<nat>, mid: seq<nat>, jc: nat)
    ensures Rising(sq, jc, |sq|) == jc * Product(sq)
    ensures Falling(sq, mid, jc, |sq|) == Rising(sq, jc, |sq|) * Product(mid)
    ensures mid == [] ==> Falling(sq, mid, jc, |sq|) == Rising(sq, jc, |sq|)
  {
    MiddleProduct(sq, mid);
    assert sq[..|sq|] == sq;
    hide Product, All;
    HalfAndMiddle(jc, Product(sq), Product(mid), Product(All(sq, mid)[|sq|..]));
  }

  lemma HalfAndMiddle(jc: nat, p: nat, q: nat, both: nat)
    requires both == p * q
    ensures jc * both == jc * p * q && (q == 1 ==> jc * both == jc * p)
  {
    MulAssoc(jc, p, q);
    if q == 1 {
      TimesOne(p);
    }
  }

  lemma MiddleProduct(sq: seq<nat>, mid: seq<nat>)
    ensures Product(All(sq, mid)[|sq|..]) == Product(sq) * Product(mid)
    ensures mid == [] ==> Product(mid) == 1
  {
    assert mid == [] ==> Product(mid) == 1;
    hide Product;
    ProductReverse(sq);
    assert All(sq, mid)[|sq|..] == mid + Reverse(sq);
    ProductAppend(mid, Reverse(sq));
    MulCommutes(Product(mid), Product(sq));
  }

  lemma TimesOne(x: nat)
    ensures x * 1 == x
  {
  }

  /**
   * The table of block sizes: np falls from ks by the square factors up to the middle, and rises from
   * jc by them from the other side. The block size for the last stage and the size of its sections.
   */
  method BlockSizes(np: array<int>, nfac: array<nat>, kt: nat, m: nat, ks: nat, jc0: nat,
                    ghost sq: seq<nat>, ghost mid: seq<nat>)
    returns (jc: nat, kspnn: nat)
    requires kt == |sq| && m <= nfac.Length && nfac[..m] == All(sq, mid)
    requires forall i :: 0 <= i < kt ==> sq[i] > 0
    requires ks == jc0 * Product(All(sq, mid))
    requires np.Length > 2 * kt + 1 && (mid != [] ==> np.Length > 2 * kt + 2)
    modifies np
    ensures jc == jc0 * Product(sq) && kspnn == jc * Product(mid)
  {
    hide Falling, Rising, All, Product;
    jc := jc0;
    np[1] := ks;
    FirstSizes(sq, mid, jc0);
    MiddleSizes(sq, mid, jc0);
    if kt != 0 {
      jc := Sizes(np, nfac, kt, m, jc0, sq, mid);
    }
    kspnn := np[kt + 1];
  }

  /** The loop, from the outermost square factors inwards. */
  method Sizes(np: array<int>, nfac: array<nat>, kt: nat, m: nat, jc0: nat, ghost sq: seq<nat>, ghost mid: seq<nat>)
    returns (k3: nat)
    requires 0 < kt == |sq| && m <= nfac.Length && nfac[..m] == All(sq, mid)
    requires forall i :: 0 <= i < kt ==> sq[i] > 0
    requires np.Length > 2 * kt + 1 && (mid != [] ==> np.Length > 2 * kt + 2)
    requires np[1] == Falling(sq, mid, jc0, 0) && Rising(sq, jc0, 0) == jc0
    modifies np
    ensures k3 == Rising(sq, jc0, kt) && np[kt + 1] == Falling(sq, mid, jc0, kt)
  {
    hide Falling, Rising;
    MiddleSizes(sq, mid, jc0);
    var k := kt + kt + 1;
    if m < k {
      k := k - 1;
    }
    ghost var top := k;
    np[k + 1] := jc0;
    var j := 1;
    while j < k
      invariant 1 <= j <= kt + 1 && k == top + 1 - j
      invariant np[j] == Falling(sq, mid, jc0, j - 1) && np[k + 1] == Rising(sq, jc0, j - 1)
    {
      assert nfac[j - 1] == nfac[..m][j - 1] == sq[j - 1];
      NextFalling(sq, mid, jc0, j - 1);
      NextRising(sq, jc0, j - 1);
      np[j + 1] := np[j] / nfac[j - 1];
      np[k] := np[k + 1] * nfac[j - 1];
      j, k := j + 1, k - 1;
    }
    k3 := np[k + 1];
  }

  lemma FactorsPositive(sq: seq<nat>)
    requires SquarePart(sq)
    ensures (forall i :: 0 <= i < |sq| ==> sq[i] > 0) && Product(sq) > 0
  {
    SquarePartAtLeast2(sq);
    ProductPositive(sq);
  }

  lemma LengthInSections(nspn: nat, nseg: nat, p: nat, q: nat)
    ensures nspn * (p * p * q) * nseg == (nseg * p) * ((nspn * p) * q)
  {
    var r := p * q;
    assert p * p * q == p * r;
    assert (nspn * p) * q == nspn * r;
    assert nspn * (p * r) == p * (nspn * r);
    assert (nseg * p) * (nspn * r) == p * (nspn * r) * nseg;
  }

  lemma Positive2(a: nat, b: nat)
    requires a > 0 && b > 0
    ensures a * b > 0
  {
  }

  /** How many elements fftmx rotates at a time. */
  method SliceLength(nfac: array<nat>, m: nat, kt: nat, ghost bound: int) returns (maxf: nat)
    requires kt < m <= nfac.Length && CoversWork(bound, nfac[..m], kt) && nfac[..m][m - kt - 1] >= 2
    ensures 1 <= maxf <= bound
  {
    ghost var all := nfac[..m];
    assert all[m - kt - 1] == nfac[m - kt - 1] && (kt > 0 ==> all[kt - 1] == nfac[kt - 1]);
    maxf := nfac[m - kt - 1];
    if kt > 0 {
      maxf := MaxInt(nfac[kt - 1], maxf);
    }
  }

  /** How the size of one transform, the spacing and the size of the data belong together. */
  ghost predicate Measures(ks: nat, jc0: nat, nt: nat, sq: seq<nat>, mid: seq<nat>, sections: nat) {
    && ks == jc0 * Product(All(sq, mid)) && jc0 * Product(sq) > 0
    && nt == sections * (jc0 * Product(sq) * Product(mid))
  }

  lemma SizesMeasure(n: nat, sq: seq<nat>, mid: seq<nat>, nspn: nat, nseg: nat)
    requires n == Product(sq) * Product(sq) * Product(mid) == Product(All(sq, mid)) && Product(sq) > 0 && nspn >= 1
    ensures Measures(nspn * n, nspn, nspn * n * nseg, sq, mid, nseg * Product(sq))
  {
    hide Product, All;
    LengthInSections(nspn, nseg, Product(sq), Product(mid));
    Positive2(nspn, Product(sq));
  }

  lemma QuotientOfProduct(a: nat, n: nat)
    requires n > 0
    ensures a * n / n == a
  {
    MultipleMod(n, a);
    MulCommutes(a, n);
  }

  /** What the stage asks of the sizes, given an accepted factorisation. */
  lemma Demands(n: nat, all: seq<nat>, sq: seq<nat>, mid: seq<nat>, maxp: int, nspn: nat, nseg: nat)
    requires Factorisation(n, all, sq, mid) && CoversScratch(maxp, sq, mid) && 2 <= n <= INT_MAX && nspn >= 1
    ensures all == All(sq, mid) && nspn * n / n == nspn
    ensures forall i :: 0 <= i < |sq| ==> sq[i] > 0
    ensures Measures(nspn * n, nspn, nspn * n * nseg, sq, mid, nseg * Product(sq))
    ensures maxp > 2 * |sq| && (mid != [] ==> maxp > 2 * |sq| + 1)
    ensures |mid| >= 2 ==> Product(mid) <= maxp + 1
    ensures 0 <= |all| - |sq| - 1 < |all| && all[|all| - |sq| - 1] >= 2
    ensures |all| - |sq| < NFAC_SIZE && mid == all[|sq|..|all| - |sq|]
    ensures forall i :: 0 <= i < |mid| ==> mid[i] >= 2
  {
    PlanFitsStage(n, all, sq, mid, maxp);
    FactorsPositive(sq);
    LastIsFactor(sq, mid);
    SizesMeasure(n, sq, mid, nspn, nseg);
    QuotientOfProduct(nspn, n);
    assert (sq + mid)[|sq + mid| - 1] == all[|all| - |sq| - 1] by {
      assert |all| - |sq| - 1 == |sq + mid| - 1;
    }
  }

  lemma SliceOfPrefix(s: seq<nat>, m: nat, lo: nat, hi: nat)
    requires lo <= hi <= m <= |s|
    ensures s[..m][lo..hi] == s[lo..hi]
  {
  }

  /** The sizes and the last stage: nt elements in sections of blocks. */
  method Stages<T>(a: array<T>, at: array<T>, np: array<int>, nfac: array<nat>, kt: nat, m: nat, ks: nat, jc0: nat,
                   nt: nat, bound: int, ghost sq: seq<nat>, ghost mid: seq<nat>, ghost sections: nat)
    returns (jc: nat, kspnn: nat)
    requires kt == |sq| && m < nfac.Length + kt && m <= nfac.Length && nfac[..m] == All(sq, mid)
    requires (forall i :: 0 <= i < kt ==> sq[i] > 0) && (forall i :: 0 <= i < |mid| ==> mid[i] >= 2)
    requires m == 2 * kt + |mid| && mid == nfac[kt..m - kt] && kt < m && nfac[..m][m - kt - 1] >= 2
    requires Measures(ks, jc0, nt, sq, mid, sections) && nt <= a.Length
    requires CoversWork(bound, nfac[..m], kt) && bound <= at.Length
    requires np.Length > 2 * kt + 1 && (mid != [] ==> np.Length > 2 * kt + 2)
    requires |mid| >= 2 ==> Product(mid) <= np.Length
    requires a != at && np as object != a && np as object != at
    requires nfac as object != np && nfac as object != a && nfac as object != at
    modifies a, at, np, nfac
    ensures jc == jc0 * Product(sq) && kspnn == jc * Product(mid)
    ensures |mid| < 2 ==> a[..] == old(a[..])
    ensures |mid| >= 2 ==> DigitReversed(old(a[..]), a[..], sections, kspnn, jc, mid)
  {
    assert ks == jc0 * Product(All(sq, mid)) && jc0 * Product(sq) > 0;
    assert nt == sections * (jc0 * Product(sq) * Product(mid));
    hide *;
    var maxf := SliceLength(nfac, m, kt, bound);
    jc, kspnn := BlockSizes(np, nfac, kt, m, ks, jc0, sq, mid);
    UnscrambleSquareFree(a, at, np, nfac, kt, m, nt, jc, kspnn, maxf, 0, mid, sections);
  }

  /** An accepted plan meets what the stages ask for. */
  lemma PlanDemands(plan: FftPlan, n: nat, nspn: nat, nseg: nat, sq: seq<nat>, mid: seq<nat>)
    requires plan.Shape() && 2 <= n <= INT_MAX && nspn >= 1
    requires Factorisation(n, plan.nfac[..plan.mFac], sq, mid) && |sq| == plan.kt
    requires CoversScratch(plan.maxp, sq, mid)
    ensures n > 0 && nspn * n / n == nspn
    ensures Measures(nspn * n, nspn, nspn * n * nseg, sq, mid, nseg * Product(sq))
    ensures plan.maxp > 2 * |sq| && (mid != [] ==> plan.maxp > 2 * |sq| + 1)
    ensures |mid| >= 2 ==> Product(mid) <= plan.maxp + 1
    ensures (forall i :: 0 <= i < |sq| ==> sq[i] > 0) && (forall i :: 0 <= i < |mid| ==> mid[i] >= 2)
    ensures var kt, m := plan.kt, plan.mFac;
      && kt < m <= plan.nfac.Length && m < plan.nfac.Length + kt && m == 2 * kt + |mid|
      && plan.nfac[..m] == All(sq, mid) && plan.nfac[..m][m - kt - 1] >= 2 && mid == plan.nfac[kt..m - kt]
  {
    hide Measures, Product;
    var kt, m := plan.kt, plan.mFac;
    Demands(n, plan.nfac[..m], sq, mid, plan.maxp, nspn, nseg);
    SliceOfPrefix(plan.nfac[..], m, kt, m - kt);
  }

  /**
   * The end of fftmx for a plan that fft_factor has accepted: nseg transforms of length n, spaced nspn
   * apart, with the scratch space that the plan asks for. Between the two steps fftmx permutes the
   * data for the square factors, which is not modelled; the data are those after that.
   */
  method Finish<T>(plan: FftPlan, a: array<T>, at: array<T>, np: array<int>, n: nat, nspn: nat, nseg: nat,
                   ghost sq: seq<nat>, ghost mid: seq<nat>)
    returns (jc: nat, kspnn: nat)
    requires plan.Shape() && n >= 2 && n <= INT_MAX && nspn >= 1 && nseg >= 1
    requires Factorisation(n, plan.nfac[..plan.mFac], sq, mid) && |sq| == plan.kt
    requires CoversScratch(plan.maxp, sq, mid) && plan.maxf >= 2
    requires CoversWork(plan.maxf, plan.nfac[..plan.mFac], plan.kt)
    requires a != at && np as object != a && np as object != at
    requires plan.nfac as object != np && plan.nfac as object != a && plan.nfac as object != at
    requires np.Length > plan.maxp && at.Length >= plan.maxf && a.Length >= nspn * n * nseg
    modifies a, at, np, plan.nfac
    ensures jc == nspn * Product(sq) && kspnn == jc * Product(mid)
    ensures |mid| < 2 ==> a[..] == old(a[..])
    ensures |mid| >= 2 ==> DigitReversed(old(a[..]), a[..], nseg * Product(sq), kspnn, jc, mid)
  {
    hide *;
    PlanDemands(plan, n, nspn, nseg, sq, mid);
    var ks, nt := nspn * n, nspn * n * nseg;
    var jc0 := ks / n;
    jc, kspnn := Stages(a, at, np, plan.nfac, plan.kt, plan.mFac, ks, jc0, nt, plan.maxf, sq, mid, nseg * Product(sq));
  }
}
