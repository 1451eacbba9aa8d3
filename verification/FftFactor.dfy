/** The factorisation step fft_factor, with the size guarantees it makes to fft_work. */
module FftFactor {
  import opened Basics
  import opened Naturals
  import opened FactorSplits

  const NFAC_SIZE := 15
  const INT_MAX := 0x7fff_ffff

  /** The smallest length the header of fft.c says does not fit. */
  const FIRST_REJECTED := 12_754_584

  /** No odd square and no 16 is left in k. */
  ghost predicate NoBigSquare(k: nat) {
    && !Divides(16, k)
    && (forall d: nat :: d >= 3 && d % 2 == 1 ==> !SquareDivides(d, k))
  }

  ghost predicate SquareFree(k: nat) {
    forall d: nat :: d >= 2 ==> !SquareDivides(d, k)
  }

  lemma QuotientKeepsNoSquare(k: nat, k': nat)
    requires NoBigSquare(k) && Divides(k', k)
    ensures NoBigSquare(k')
  {
    if Divides(16, k') { DividesTrans(16, k', k); }
    forall d: nat | d >= 3 && d % 2 == 1 ensures !SquareDivides(d, k') {
      if SquareDivides(d, k') { SquareDividesTrans(d, k', k); }
    }
  }

  lemma EvenSquare(d: nat)
    requires d % 2 == 0
    ensures Divides(4, d * d)
  {
    var h := d / 2;
    assert d * d == 4 * (h * h);
    assert Multiple(4, h * h, d * d);
  }

  lemma NoFourNoSquare(k: nat)
    requires NoBigSquare(k) && k % 4 != 0
    ensures SquareFree(k)
  {
    forall d: nat | d >= 2 ensures !SquareDivides(d, k) {
      if SquareDivides(d, k) && d % 2 == 0 {
        EvenSquare(d);
        DividesTrans(4, d * d, k);
        ModIffDivides(4, k);
      }
    }
  }

  /** A divisor found by ascending odd trial squares is prime. */
  lemma OddTrialIsPrime(j: nat, k: nat)
    requires j >= 3 && j % 2 == 1 && k > 0
    requires SquareDivides(j, k)
    requires NoTrialSquare(j, k)
    ensures IsPrime(j)
  {
    forall d: nat | 2 <= d < j ensures !Divides(d, j) {
      if Divides(d, j) {
        if d % 2 == 0 {
          ModIffDivides(2, d);
          DividesTrans(2, d, j);
          ModIffDivides(2, j);
        } else {
          SquareChain(d, j, k);
        }
      }
    }
  }

  /** Trial division by 2, 3, 5, 7, ... only ever meets prime divisors. */
  lemma TrialIsPrime(j: nat, k: nat)
    requires j >= 2 && Divides(j, k)
    requires forall d: nat :: 2 <= d < j ==> !Divides(d, k)
    ensures IsPrime(j)
  {
    forall d: nat | 2 <= d < j ensures !Divides(d, j) {
      if Divides(d, j) { DividesTrans(d, j, k); }
    }
  }

  lemma NoDivisorPastOddStep(j: nat, k: nat)
    requires j >= 3 && j % 2 == 1
    requires forall d: nat :: 2 <= d < j + 1 ==> !Divides(d, k)
    ensures forall d: nat :: 2 <= d < j + 2 ==> !Divides(d, k)
  {
    if Divides(j + 1, k) {
      ModIffDivides(2, j + 1);
      DividesTrans(2, j + 1, k);
    }
  }

  lemma DividedOut(j: nat, k: nat, k': nat)
    requires j >= 2 && k == j * k' && SquareFree(k)
    ensures !Divides(j, k') && SquareFree(k')
  {
    if Divides(j, k') { RepeatedFactor(j, k'); }
    assert k' * j == j * k';
    assert Multiple(k', j, k);
    forall d: nat | d >= 2 ensures !SquareDivides(d, k') {
      if SquareDivides(d, k') { SquareDividesTrans(d, k', k); }
    }
  }

  // ----- size of a factorisation -----

  function Power9(k: nat): nat {
    if k == 0 then 1 else 9 * Power9(k - 1)
  }

  /** The least number with kt square factors and r increasing middle factors. */
  function LeastLength(kt: nat, r: nat): nat {
    LeastSquares(kt) * Factorial(r + 1)
  }

  lemma SquarePartAtLeast2(s: seq<nat>)
    requires SquarePart(s)
    ensures forall i :: 0 <= i < |s| ==> s[i] >= 2
  {
    forall i | 0 <= i < |s| ensures s[i] >= 2 {
      assert SquareFactor(s[i]);
    }
  }

  lemma {:induction false} SquarePartSize(s: seq<nat>)
    requires forall i :: 0 <= i < |s| ==> s[i] >= 3
    ensures Product(s) * Product(s) >= Power9(|s|)
  {
    if s != [] {
      SquarePartSize(s[1..]);
      SquareOfProduct(Product(s[1..]), s[0], 3, Power9(|s| - 1));
      MulCommutes(Product(s[1..]), s[0]);
    }
  }

  lemma {:induction false} IncreasingSize(s: seq<nat>)
    requires IncreasingPrimes(s)
    ensures |s| > 0 ==> s[|s| - 1] >= |s| + 1
    ensures Product(s) >= Factorial(|s| + 1)
  {
    if s != [] {
      var k := |s| - 1;
      assert IsPrime(s[k]);
      IncreasingSize(s[..k]);
      assert k > 0 ==> s[..k][k - 1] == s[k - 1] < s[k];
      assert s == s[..k] + [s[k]];
      ProductSnoc(s[..k], s[k]);
      MulMono(Factorial(k + 1), k + 2, Product(s[..k]), s[k]);
    }
  }

  function LeastSquares(kt: nat): nat {
    if kt == 0 then 1 else 4 * Power9(kt - 1)
  }

  lemma SquaresSize(sq: seq<nat>)
    requires SquarePart(sq)
    ensures Product(sq) * Product(sq) >= LeastSquares(|sq|)
  {
    if sq != [] {
      var k := |sq| - 1;
      SquarePartAtLeast2(sq);
      SquarePartSize(sq[..k]);
      assert sq == sq[..k] + [sq[k]];
      ProductSnoc(sq[..k], sq[k]);
      SquareOfProduct(Product(sq[..k]), sq[k], 2, Power9(k));
    }
  }

  lemma MulCommutes(a: nat, b: nat)
    ensures a * b == b * a
  {
  }

  lemma SquareOfProduct(p: nat, x: nat, y: nat, low: nat)
    requires p * p >= low && x >= y
    ensures (p * x) * (p * x) >= y * y * low
  {
    MulMono(y, y, x, x);
    MulMono(y * y, low, x * x, p * p);
    assert (p * x) * (p * x) == (x * x) * (p * p);
  }

  lemma MiddleSize(mid: seq<nat>)
    requires MiddlePart(mid)
    ensures Product(mid) >= Factorial(|mid| + 1)
  {
    if mid == [4] {
      ProductSnoc([], 4);
    } else {
      IncreasingSize(mid);
    }
  }

  lemma FactorisationSize(sq: seq<nat>, mid: seq<nat>)
    requires SquarePart(sq) && MiddlePart(mid)
    ensures Product(sq) * Product(sq) * Product(mid) >= LeastLength(|sq|, |mid|)
  {
    SquaresSize(sq);
    MiddleSize(mid);
    MulMono(LeastSquares(|sq|), Factorial(|mid| + 1), Product(sq) * Product(sq), Product(mid));
  }

  lemma {:induction false} PositiveSizes(k: nat)
    ensures Factorial(k) >= 1 && Power9(k) >= 1
  {
    if k > 0 {
      PositiveSizes(k - 1);
    }
  }

  lemma {:induction false} LeastLengthMonotone(kt: nat, r: nat, kt': nat, r': nat)
    requires kt <= kt' && r <= r'
    ensures LeastLength(kt, r) <= LeastLength(kt', r')
    decreases kt' - kt, r' - r
  {
    if r < r' {
      LeastLengthMonotone(kt, r, kt', r' - 1);
      PositiveSizes(r');
      MulMono(1, Factorial(r'), r' + 1, Factorial(r'));
      MulMono(LeastSquares(kt'), Factorial(r'), LeastSquares(kt'), Factorial(r' + 1));
    } else if kt < kt' {
      LeastLengthMonotone(kt, r, kt' - 1, r');
      PositiveSizes(kt' - 1);
      MulMono(LeastSquares(kt' - 1), Factorial(r' + 1), LeastSquares(kt'), Factorial(r' + 1));
    }
  }

  lemma SmallTables()
    ensures LeastSquares(0) == 1 && LeastSquares(1) == 4 && LeastSquares(2) == 36 && LeastSquares(3) == 324
    ensures LeastSquares(4) == 2916 && LeastSquares(5) == 26244 && LeastSquares(6) == 236196
    ensures LeastSquares(7) == 2125764 && LeastSquares(8) == 19131876 && LeastSquares(11) == 13947137604
    ensures Factorial(1) == 1 && Factorial(3) == 6 && Factorial(5) == 120 && Factorial(6) == 720
    ensures Factorial(7) == 5040 && Factorial(9) == 362880 && Factorial(10) == 3628800
    ensures Factorial(11) == 39916800 && Factorial(12) == 479001600 && Factorial(13) == 6227020800
  {
    assert Power9(2) == 81 && Power9(4) == 6561 && Power9(6) == 531441 && Power9(8) == 43046721;
    assert Factorial(4) == 24;
    assert Factorial(8) == 40320;
  }

  /** Sixteen factors, squares counted twice, need a length of at least 2^3 * 3^13. */
  lemma RejectedIsLong(kt: nat, r: nat)
    requires 2 * kt + r >= 16
    ensures LeastLength(kt, r) >= FIRST_REJECTED
  {
    SmallTables();
    var c := if kt >= 8 then 8 else kt;
    var d := if c <= 3 then 10 else 16 - 2 * c;
    LeastLengthMonotone(c, d, kt, r);
  }

  /** Fifteen factors, squares counted once, do not fit in an int. */
  lemma ManyFactorsOverflow(kt: nat, r: nat)
    requires kt + r >= 15
    ensures LeastLength(kt, r) > INT_MAX
  {
    SmallTables();
    var c := if kt >= 11 then 11 else if kt >= 8 then 8 else kt;
    var d := if c == 11 then 0 else if c == 8 then 5 else if c <= 3 then 12 else 15 - c;
    LeastLengthMonotone(c, d, kt, r);
  }

  /** Every odd factor is a prime bounded by maxf: what the work vectors are sized by. */
  ghost predicate BoundsOddFactors(maxf: int, s: seq<nat>) {
    forall i :: 0 <= i < |s| && s[i] % 2 == 1 ==> s[i] <= maxf
  }

  /** The index range of np that the two permutation stages of fftmx use. */
  ghost predicate CoversScratch(maxp: int, sq: seq<nat>, mid: seq<nat>) {
    && maxp >= (if mid == [] then 2 * |sq| + 1 else 2 * |sq| + 2)
    && (|mid| >= 2 ==> maxp >= Product(mid) - 1)
  }

  /** maxp is the least number that covers these needs. */
  ghost predicate LeastScratch(maxp: int, sq: seq<nat>, mid: seq<nat>) {
    CoversScratch(maxp, sq, mid) && forall p :: CoversScratch(p, sq, mid) ==> maxp <= p
  }

  /** maxf is the largest of the last middle factor and the last three square factors. */
  ghost predicate LargestOfLast(maxf: int, sq: seq<nat>, mid: seq<nat>) {
    var k := |sq|;
    && (mid != [] ==> mid[|mid| - 1] <= maxf) && (k > 0 ==> sq[k - 1] <= maxf)
    && (k > 1 ==> sq[k - 2] <= maxf) && (k > 2 ==> sq[k - 3] <= maxf)
    && ((mid != [] && maxf == mid[|mid| - 1]) || (k > 0 && maxf == sq[k - 1])
      || (k > 1 && maxf == sq[k - 2]) || (k > 2 && maxf == sq[k - 3]))
  }

  /** A square 4 is followed by at least three smaller ones, and the last middle factor is smaller too. */
  predicate MissesFour(sq: seq<nat>, mid: seq<nat>) {
    && |sq| >= 4 && sq[0] == 4 && sq[|sq| - 3] < 4 && sq[|sq| - 2] < 4 && sq[|sq| - 1] < 4
    && (mid == [] || mid[|mid| - 1] < 4)
  }

  /** maxf is the largest factor, unless a square 4 is missed: then it is 3. */
  ghost predicate LargestUnlessMissed(maxf: int, all: seq<nat>, sq: seq<nat>, mid: seq<nat>) {
    && (exists i :: 0 <= i < |all| && all[i] == maxf)
    && ((forall i :: 0 <= i < |all| ==> all[i] <= maxf) <==> !MissesFour(sq, mid))
    && (MissesFour(sq, mid) ==> maxf == 3)
  }

  /** maxf is at least the slice length that fftmx takes for its rotations. */
  predicate CoversWork(maxf: int, all: seq<nat>, kt: nat) {
    kt < |all| && all[|all| - kt - 1] <= maxf && (kt > 0 ==> all[kt - 1] <= maxf)
  }

  /** What a successful factorisation of n leaves in nfac, as its three parts. */
  ghost predicate Factorisation(n: nat, all: seq<nat>, sq: seq<nat>, mid: seq<nat>) {
    && all == sq + mid + Reverse(sq)
    && Product(all) == n
    && Split(n, sq, mid)
  }

  /** A factorisation that does not fit in nfac once its squares are mirrored. */
  ghost predicate TooManyFactors(n: nat, sq: seq<nat>, mid: seq<nat>) {
    Split(n, sq, mid) && 2 * |sq| + |mid| > NFAC_SIZE
  }

  lemma DivideSquareOut(p: nat, x: nat, k: nat)
    requires x > 0 && k % (x * x) == 0
    ensures (p * x) * (p * x) * (k / (x * x)) == p * p * k
    ensures Divides(k / (x * x), k)
  {
    var q := k / (x * x);
    assert k == (x * x) * q;
    assert (p * x) * (p * x) * q == p * p * ((x * x) * q);
    assert q * (x * x) == k;
    assert Multiple(q, x * x, k);
  }

  lemma QuotientSmaller(j: nat, k: nat)
    requires j >= 2 && k > 0 && k % (j * j) == 0
    ensures 0 < k / (j * j) < k
  {
    var d := j * j;
    MulMono(2, 2, j, j);
    var q := k / d;
    assert k == d * q;
    PositiveFactors(d, q);
    MulMono(2, q, d, q);
  }

  lemma SmallerThanProduct(p: nat, k: nat, n: nat)
    requires p * p * k == n && n > 0
    ensures k <= n && k > 0
  {
    var r := p * p;
    assert r * k == n;
  }

  lemma RoomForFactor(sq: seq<nat>, mid: seq<nat>, k: nat, n: nat)
    requires SquarePart(sq) && MiddlePart(mid)
    requires Product(sq) * Product(sq) * Product(mid) * k == n && 0 < n <= INT_MAX
    ensures |sq| + |mid| < NFAC_SIZE
  {
    hide Product, SquarePart, MiddlePart, LeastLength;
    var p := Product(sq) * Product(sq) * Product(mid);
    PositiveFactors(p, k);
    FactorisationSize(sq, mid);
    if |sq| + |mid| >= 15 {
      ManyFactorsOverflow(|sq|, |mid|);
    }
  }

  predicate OnlyFours(s: seq<nat>) {
    forall i :: 0 <= i < |s| ==> s[i] == 4
  }

  lemma AllFours(s: seq<nat>)
    ensures s == [] ==> OnlyFours(s)
    ensures OnlyFours(s) ==> BoundsOddFactors(3, s) && BoundsOddFactors(4, s)
  {
  }

  lemma OneMoreFour(s: seq<nat>)
    requires OnlyFours(s)
    ensures OnlyFours(s + [4])
  {
  }

  lemma SquarePartSnoc(s: seq<nat>, j: nat)
    requires SquarePart(s) && SquareFactor(j) && j >= 2
    requires forall i :: 0 <= i < |s| ==> s[i] >= 3
    requires j == 2 || j % 2 == 1 || forall i :: 0 <= i < |s| ==> s[i] == 4
    requires j == 2 || BoundsOddFactors(j, s)
    ensures SquarePart(s + [j])
  {
    forall i | 0 <= i < |s| ensures s[i] == 4 || s[i] % 2 == 1 {
      if s[i] != 4 {
        OddPrime(s[i]);
      }
    }
  }

  class FftPlan {
    var oldN: int
    var mFac: nat
    var kt: nat
    var maxf: int
    var maxp: int
    const nfac: array<nat>

    ghost predicate Shape()
      reads this
    {
      nfac.Length == NFAC_SIZE && mFac <= NFAC_SIZE
    }

    constructor ()
      ensures Shape() && fresh(nfac) && oldN == 0
    {
      nfac := new nat[NFAC_SIZE];
      oldN, mFac, kt, maxf, maxp := 0, 0, 0, 0, 0;
    }

    method Push(f: nat)
      requires Shape() && mFac < NFAC_SIZE
      modifies this`mFac, nfac
      ensures Shape() && nfac[..mFac] == old(nfac[..mFac]) + [f]
    {
      nfac[mFac] := f;
      mFac := mFac + 1;
    }

    /** Part way through the square factors of n, with k still to be factored. */
    ghost predicate Extracting(n: nat, k: nat)
      reads this, nfac
    {
      && Shape()
      && SquarePart(nfac[..mFac])
      && (forall i :: 0 <= i < mFac ==> nfac[i] >= 3)
      && Product(nfac[..mFac]) * Product(nfac[..mFac]) * k == n
    }

    /** Divides one square j * j out of k. */
    method ExtractSquare(j: nat, k: nat, ghost n: nat) returns (k': nat)
      requires Extracting(n, k) && 0 < n <= INT_MAX
      requires j >= 3 && SquareFactor(j) && k % (j * j) == 0
      requires BoundsOddFactors(j, nfac[..mFac]) && (j == 4 ==> OnlyFours(nfac[..mFac]))
      modifies this`mFac, nfac
      ensures Shape() && Extracting(n, k') && Divides(k', k) && 0 < k' < k
      ensures nfac[..mFac] == old(nfac[..mFac]) + [j]
      ensures BoundsOddFactors(j, nfac[..mFac])
    {
      ghost var s := nfac[..mFac];
      SmallerThanProduct(Product(s), k, n);
      RoomForFactor(s, [], k, n);
      Push(j);
      if j != 4 {
        OddPrime(j);
      }
      SquarePartSnoc(s, j);
      ProductSnoc(s, j);
      DivideSquareOut(Product(s), j, k);
      QuotientSmaller(j, k);
      k' := k / (j * j);
      assert nfac[..mFac] == s + [j];
    }

    /** Extracts 16 = 4^2 as often as it divides. */
    method ExtractFours(n: nat) returns (k: nat)
      requires Shape() && 2 <= n <= INT_MAX
      modifies this`mFac, nfac
      ensures Extracting(n, k) && 0 < k <= n
      ensures BoundsOddFactors(3, nfac[..mFac])
      ensures !Divides(16, k)
    {
      mFac := 0;
      k := n;
      assert nfac[..mFac] == [] && Extracting(n, k);
      hide Extracting, BoundsOddFactors, Product, SquarePart, Divides;
      AllFours(nfac[..mFac]);
      while k % 16 == 0
        invariant Shape() && Extracting(n, k) && 0 < k <= n
        invariant OnlyFours(nfac[..mFac])
        decreases k
      {
        AllFours(nfac[..mFac]);
        ghost var before := nfac[..mFac];
        k := ExtractSquare(4, k, n);
        OneMoreFour(before);
      }
      AllFours(nfac[..mFac]);
      ModIffDivides(16, k);
    }

    /** Extracts j^2 as often as it divides. */
    method ExtractRepeatedly(j: nat, k0: nat, ghost n: nat) returns (k: nat)
      requires Extracting(n, k0) && 0 < k0 <= n <= INT_MAX
      requires j % 2 == 1 && j >= 3 && BoundsOddFactors(j, nfac[..mFac])
      requires !Divides(16, k0) && NoTrialSquare(j, k0)
      modifies this`mFac, nfac
      ensures Extracting(n, k) && 0 < k <= k0
      ensures BoundsOddFactors(j, nfac[..mFac])
      ensures !Divides(16, k) && NoTrialSquare(j, k) && !SquareDivides(j, k)
    {
      k := k0;
      while k % (j * j) == 0
        invariant Extracting(n, k) && 0 < k <= k0
        invariant BoundsOddFactors(j, nfac[..mFac])
        invariant !Divides(16, k) && NoTrialSquare(j, k)
        decreases k
      {
        ghost var before := k;
        ModIffDivides(j * j, k);
        OddTrialIsPrime(j, k);
        k := ExtractSquare(j, k, n);
        KeepTrialSquares(j, before, k);
      }
      ModIffDivides(j * j, k);
    }

    /** First 16 = 4^2, then 3^2, 5^2, ...: each square leaves one factor in nfac. */
    method ExtractSquares(n: nat) returns (k: nat)
      requires Shape() && 2 <= n <= INT_MAX
      modifies this`mFac, nfac
      ensures Extracting(n, k) && 0 < k <= n
      ensures NoBigSquare(k)
    {
      k := ExtractFours(n);
      var j := 3;
      while j * j <= k
        invariant Extracting(n, k) && 0 < k <= n
        invariant j % 2 == 1 && j >= 3 && BoundsOddFactors(j, nfac[..mFac])
        invariant !Divides(16, k) && NoTrialSquare(j, k)
        decreases n + 2 - j
      {
        AtMostSquare(j);
        k := ExtractRepeatedly(j, k, n);
        NextTrialSquare(j, k, nfac[..mFac]);
        j := j + 2;
      }
      NoSquareLeft(j, k);
    }

    /** If j divides k it is a prime and is divided out, once. */
    method TrialStep(j: nat, k: nat, ghost sq: seq<nat>, ghost mid: seq<nat>, ghost n: nat, ghost k0: nat)
      returns (k': nat, ghost mid': seq<nat>)
      requires Shape() && nfac[..mFac] == sq + mid && SquarePart(sq)
      requires Trialling(mid, j, k, k0)
      requires Product(sq) * Product(sq) * k0 == n && 0 < n <= INT_MAX
      modifies this`mFac, nfac
      ensures Shape() && nfac[..mFac] == sq + mid'
      ensures Trialling(mid', j + 1, k', k0)
    {
      ModIffDivides(j, k);
      k', mid' := k, mid;
      if k % j == 0 {
        TrialIsPrime(j, k);
        RoomForPrime(sq, mid, k, n, k0);
        Push(j);
        k', mid' := k / j, mid + [j];
        DivideOut(mid, j, k, k');
      }
    }

    /** Trial division by 2, 3, 5, 7, ... of the square-free rest; the last one ends it. */
    method ExtractPrimes(k0: nat, ghost sq: seq<nat>, ghost n: nat) returns (k: nat)
      requires Shape() && nfac[..mFac] == sq && SquarePart(sq)
      requires SquareFree(k0) && k0 >= 2
      requires Product(sq) * Product(sq) * k0 == n && 0 < n <= INT_MAX
      modifies this`mFac, nfac
      ensures Shape() && k == 1
      ensures exists mid :: nfac[..mFac] == sq + mid && IncreasingPrimes(mid) && Product(mid) == k0
    {
      k := k0;
      var j := 2;
      ghost var mid: seq<nat> := [];
      while true
        invariant Shape() && nfac[..mFac] == sq + mid
        invariant Trialling(mid, j, k, k0)
        invariant j == 2 || j % 2 == 1
        invariant j <= k
        decreases k0 + 2 - j
      {
        k, mid := TrialStep(j, k, sq, mid, n, k0);
        NextTrial(mid, j, k, k0);
        j := ((j + 1) / 2) * 2 + 1;
        if !(j <= k) { break; }
      }
      OnlyOneLeft(j, k);
    }

    /** The rest k > 4: a last square 4, then its primes. */
    method ExtractMiddle(k0: nat, ghost sq0: seq<nat>, ghost n: nat)
      returns (ghost sq: seq<nat>, ghost mid: seq<nat>)
      requires Extracting(n, k0) && nfac[..mFac] == sq0 && 0 < n <= INT_MAX
      requires NoBigSquare(k0) && k0 > 4
      modifies this`mFac, this`kt, this`maxp, nfac
      ensures Shape() && nfac[..mFac] == sq + mid && kt == |sq|
      ensures SquarePart(sq) && IncreasingPrimes(mid)
      ensures Product(sq) * Product(sq) * Product(mid) == n
      ensures mid != [] && maxp == if 2 * |sq| + 2 >= Product(mid) - 1 then 2 * |sq| + 2 else Product(mid) - 1
    {
      var k := k0;
      sq := sq0;
      RoomForFactor(sq, [], k, n);
      if k % 4 == 0 {
        Push(2);
        k := k / 4;
        ExtractLastTwo(sq, k0, k, n);
        sq := sq + [2];
      } else {
        NoFourNoSquare(k);
      }
      kt := mFac;
      maxp := if kt + kt + 2 >= k - 1 then kt + kt + 2 else k - 1;
      var _ := ExtractPrimes(k, sq, n);
      mid :| nfac[..mFac] == sq + mid && IncreasingPrimes(mid) && Product(mid) == k;
    }

    /** The rest k <= 4 is itself the middle part. */
    method ExtractSmall(k: nat, ghost sq: seq<nat>, ghost n: nat) returns (ghost mid: seq<nat>)
      requires Shape() && nfac[..mFac] == sq && SquarePart(sq) && 1 <= k <= 4
      requires Product(sq) * Product(sq) * k == n && 0 < n <= INT_MAX
      modifies this`mFac, this`kt, nfac
      ensures Shape() && nfac[..mFac] == sq + mid && kt == |sq|
      ensures MiddlePart(mid) && |mid| <= 1 && Product(mid) == k
    {
      RoomForFactor(sq, [], k, n);
      kt := mFac;
      nfac[mFac] := k;
      mid := [];
      if k != 1 {
        mFac := mFac + 1;
        mid := [k];
      }
      SmallRest(k, mid);
    }

    /** Square part, then middle part; maxp as soon as both are known. */
    method ExtractFactors(n: nat) returns (ghost sq: seq<nat>, ghost mid: seq<nat>)
      requires Shape() && 2 <= n <= INT_MAX
      modifies this`mFac, this`kt, this`maxp, nfac
      ensures Shape() && nfac[..mFac] == sq + mid && kt == |sq|
      ensures Split(n, sq, mid)
      ensures LeastScratch(maxp, sq, mid)
    {
      var k := ExtractSquares(n);
      if k <= 4 {
        sq := nfac[..mFac];
        mid := ExtractSmall(k, sq, n);
      } else {
        sq, mid := ExtractMiddle(k, nfac[..mFac], n);
        FourIsNoPrime();
      }
      assert mFac == |sq| + |mid|;
      if mFac <= kt + 1 {
        maxp := mFac + kt + 1;
      }
      assert CoversScratch(maxp, sq, mid);
    }

    /** Repeats the square factors in reverse order behind the middle ones. */
    method Mirror(ghost sq: seq<nat>, ghost mid: seq<nat>)
      requires Shape() && nfac[..mFac] == sq + mid && kt == |sq|
      requires mFac + kt <= NFAC_SIZE
      modifies this`mFac, nfac
      ensures Shape() && nfac[..mFac] == sq + mid + Reverse(sq)
    {
      var j := kt;
      ghost var all := sq + mid;
      while j != 0
        invariant 0 <= j <= kt && mFac == |all| + kt - j && nfac.Length == NFAC_SIZE
        invariant nfac[..|all|] == all
        invariant forall i :: 0 <= i < kt - j ==> nfac[|all| + i] == Reverse(sq)[i]
      {
        j := j - 1;
        assert nfac[j] == all[j] == sq[j];
        nfac[mFac] := nfac[j];
        mFac := mFac + 1;
      }
      assert nfac[..mFac] == nfac[..|all|] + nfac[|all|..mFac];
      assert nfac[|all|..mFac] == Reverse(sq);
    }

    /** maxf: the last middle factor or one of the last three square factors. */
    method SetMaxf(ghost sq: seq<nat>, ghost mid: seq<nat>)
      requires Shape() && nfac[..mFac] == sq + mid + Reverse(sq) && kt == |sq|
      requires SquarePart(sq) && MiddlePart(mid) && sq + mid != []
      modifies this`maxf
      ensures maxf >= 2 && CoversWork(maxf, nfac[..mFac], kt) && BoundsOddFactors(maxf, nfac[..mFac])
      ensures LargestUnlessMissed(maxf, nfac[..mFac], sq, mid)
    {
      ghost var all := nfac[..mFac];
      assert |all| == 2 * kt + |mid| && kt < |all|;
      hide *;
      maxf := nfac[mFac - kt - 1];
      if kt > 0 {
        maxf := MaxInt(nfac[kt - 1], maxf);
      }
      if kt > 1 {
        maxf := MaxInt(nfac[kt - 2], maxf);
      }
      if kt > 2 {
        maxf := MaxInt(nfac[kt - 3], maxf);
      }
      LargestIs(all, sq, mid, maxf);
      LargestBounds(all, sq, mid, maxf);
      MaxfIsLargest(all, sq, mid, maxf);
    }

    /**
     * fft_factor. The out-parameters stand for *pmaxf and *pmaxp, which a length
     * of one leaves as they were.
     */
    method Factor(n: int, pmaxf0: int, pmaxp0: int) returns (pmaxf: int, pmaxp: int)
      requires Shape() && n <= INT_MAX
      modifies this, nfac
      ensures Shape()
      ensures n <= 0 ==> oldN == 0 && pmaxf == 0 && pmaxp == 0
      ensures n == 1 ==> oldN == 1 && mFac == 0 && pmaxf == pmaxf0 && pmaxp == pmaxp0
      ensures n >= 2 && oldN == 0 ==>
        && pmaxf == 0 && pmaxp == 0 && n >= FIRST_REJECTED
        && exists sq, mid :: nfac[..mFac] == sq + mid && TooManyFactors(n, sq, mid)
      ensures n >= 2 ==> (oldN == 0 <==> exists sq, mid :: TooManyFactors(n, sq, mid))
      ensures n >= 2 && oldN != 0 ==>
        && oldN == n && pmaxf == maxf && pmaxp == maxp
        && exists sq, mid ::
             && Factorisation(n, nfac[..mFac], sq, mid) && |sq| == kt && LeastScratch(maxp, sq, mid)
             && LargestUnlessMissed(maxf, nfac[..mFac], sq, mid)
      ensures n >= 2 && oldN != 0 ==>
        maxf >= 2 && CoversWork(maxf, nfac[..mFac], kt) && BoundsOddFactors(maxf, nfac[..mFac])
      ensures n == FIRST_REJECTED ==> oldN == 0
    {
      if n <= 0 {
        oldN := 0;
        return 0, 0;
      }
      oldN := n;
      mFac := 0;
      if n == 1 {
        return pmaxf0, pmaxp0;
      }
      FirstRejectedIsTight();
      ghost var sq, mid := ExtractFactors(n);
      if mFac + kt > NFAC_SIZE {
        RejectedLength(sq, mid, n);
        assert TooManyFactors(n, sq, mid);
        oldN := 0;
        return 0, 0;
      }
      FewFactors(n, sq, mid);
      Mirror(sq, mid);
      MirroredProduct(sq, mid, n);
      SetMaxf(sq, mid);
      assert Factorisation(n, nfac[..mFac], sq, mid);
      return maxf, maxp;
    }
  }

  /** A length that has been split without too many factors cannot be split with too many. */
  lemma FewFactors(n: nat, sq: seq<nat>, mid: seq<nat>)
    requires Split(n, sq, mid) && 2 * |sq| + |mid| <= NFAC_SIZE
    ensures forall s, m :: !TooManyFactors(n, s, m)
  {
    forall s, m ensures !TooManyFactors(n, s, m) {
      if TooManyFactors(n, s, m) {
        SplitIsUnique(n, sq, mid, s, m);
      }
    }
  }

  lemma MirroredEntries(all: seq<nat>, sq: seq<nat>, mid: seq<nat>)
    requires all == sq + mid + Reverse(sq) && sq + mid != []
    ensures forall i :: 0 <= i < |sq| ==> all[i] == sq[i]
    ensures mid != [] ==> all[|all| - |sq| - 1] == mid[|mid| - 1]
    ensures (sq + mid)[|sq + mid| - 1] == all[|all| - |sq| - 1]
  {
  }

  /** The entry before the mirrored squares. */
  lemma LastIsFactor(sq: seq<nat>, mid: seq<nat>)
    requires SquarePart(sq) && MiddlePart(mid) && sq + mid != []
    ensures (sq + mid)[|sq + mid| - 1] >= 2
  {
    var all := sq + mid;
    var last := all[|all| - 1];
    if mid == [] {
      assert SquareFactor(sq[|sq| - 1]) && last == sq[|sq| - 1];
    } else if mid != [4] {
      assert IsPrime(mid[|mid| - 1]) && last == mid[|mid| - 1];
    }
  }

  lemma RejectedLength(sq: seq<nat>, mid: seq<nat>, n: nat)
    requires SquarePart(sq) && MiddlePart(mid) && 2 * |sq| + |mid| >= 16
    requires Product(sq) * Product(sq) * Product(mid) == n
    ensures n >= FIRST_REJECTED
  {
    FactorisationSize(sq, mid);
    RejectedIsLong(|sq|, |mid|);
  }

  lemma MirroredProduct(sq: seq<nat>, mid: seq<nat>, n: nat)
    requires Product(sq) * Product(sq) * Product(mid) == n >= 2
    ensures Product(sq + mid + Reverse(sq)) == n
    ensures sq + mid != []
  {
    ProductAppend(sq, mid);
    ProductAppend(sq + mid, Reverse(sq));
    ProductReverse(sq);
    MirrorArithmetic(Product(sq), Product(mid));
  }

  lemma MirrorArithmetic(p: nat, q: nat)
    ensures p * q * p == p * p * q
  {
  }

  lemma SquareFactorsBounded(sq: seq<nat>, maxf: int)
    requires SquarePart(sq)
    requires |sq| > 0 ==> sq[|sq| - 1] <= maxf
    requires |sq| > 1 ==> sq[|sq| - 2] <= maxf
    ensures BoundsOddFactors(maxf, sq)
  {
    forall i | 0 <= i < |sq| && sq[i] % 2 == 1 ensures sq[i] <= maxf {
      if i < |sq| - 2 {
        assert sq[i] <= sq[|sq| - 2];
      }
    }
  }

  lemma MiddleBounded(mid: seq<nat>, maxf: int)
    requires MiddlePart(mid)
    requires mid != [] ==> mid[|mid| - 1] <= maxf
    ensures BoundsOddFactors(maxf, mid)
  {
    forall i | 0 <= i < |mid| && mid[i] % 2 == 1 ensures mid[i] <= maxf {
      if i < |mid| - 1 {
        assert mid[i] < mid[|mid| - 1];
      }
    }
  }

  lemma BoundsConcat(maxf: int, s: seq<nat>, t: seq<nat>)
    requires BoundsOddFactors(maxf, s) && BoundsOddFactors(maxf, t)
    ensures BoundsOddFactors(maxf, s + t)
  {
  }

  lemma BoundsReverse(maxf: int, s: seq<nat>)
    requires BoundsOddFactors(maxf, s)
    ensures BoundsOddFactors(maxf, Reverse(s))
  {
  }

  /** What is at least the last middle factor and the last squares bounds all. */
  lemma LargestBounds(all: seq<nat>, sq: seq<nat>, mid: seq<nat>, maxf: int)
    requires all == sq + mid + Reverse(sq) && SquarePart(sq) && MiddlePart(mid) && sq + mid != []
    requires CoversWork(maxf, all, |sq|) && (|sq| > 1 ==> all[|sq| - 2] <= maxf)
    ensures maxf >= 2 && BoundsOddFactors(maxf, all)
  {
    hide SquarePart, MiddlePart, BoundsOddFactors;
    MirroredEntries(all, sq, mid);
    LastIsFactor(sq, mid);
    assert |all| == 2 * |sq| + |mid|;
    OddFactorsBounded(sq, mid, maxf);
  }

  lemma OddFactorsBounded(sq: seq<nat>, mid: seq<nat>, maxf: int)
    requires SquarePart(sq) && MiddlePart(mid)
    requires mid != [] ==> mid[|mid| - 1] <= maxf
    requires |sq| > 0 ==> sq[|sq| - 1] <= maxf
    requires |sq| > 1 ==> sq[|sq| - 2] <= maxf
    ensures BoundsOddFactors(maxf, sq + mid + Reverse(sq))
  {
    SquareFactorsBounded(sq, maxf);
    MiddleBounded(mid, maxf);
    BoundsReverse(maxf, sq);
    BoundsConcat(maxf, sq, mid);
    BoundsConcat(maxf, sq + mid, Reverse(sq));
  }

  lemma MaxfIsLargest(all: seq<nat>, sq: seq<nat>, mid: seq<nat>, maxf: int)
    requires all == sq + mid + Reverse(sq) && SquarePart(sq) && MiddlePart(mid) && sq + mid != []
    requires LargestOfLast(maxf, sq, mid) && maxf >= 2 && BoundsOddFactors(maxf, all)
    ensures LargestUnlessMissed(maxf, all, sq, mid)
  {
    assert MiddleEndsWithin(maxf, mid);
    MaxfIsAmong(all, sq, mid, maxf);
    if MissesFour(sq, mid) {
      assert all[0] == 4;
    } else {
      OddOfParts(all, sq, mid, maxf);
      hide *;
      SquaresUpToMaxf(sq, mid, maxf);
      MiddleUpToMaxf(mid, maxf);
      AllUpToMaxf(all, sq, mid, maxf);
      IsLargest(all, sq, mid, maxf);
    }
  }

  predicate MiddleEndsWithin(maxf: int, mid: seq<nat>) {
    mid != [] ==> mid[|mid| - 1] <= maxf
  }

  lemma OddOfParts(all: seq<nat>, sq: seq<nat>, mid: seq<nat>, maxf: int)
    requires all == sq + mid + Reverse(sq) && BoundsOddFactors(maxf, all)
    ensures BoundsOddFactors(maxf, sq) && BoundsOddFactors(maxf, mid)
  {
    assert forall i :: 0 <= i < |sq| ==> sq[i] == all[i];
    assert forall i :: 0 <= i < |mid| ==> mid[i] == all[|sq| + i];
  }

  ghost predicate UpTo(maxf: int, s: seq<nat>) {
    forall i :: 0 <= i < |s| ==> s[i] <= maxf
  }

  lemma UpToConcat(maxf: int, s: seq<nat>, t: seq<nat>)
    requires UpTo(maxf, s) && UpTo(maxf, t)
    ensures UpTo(maxf, s + t)
  {
  }

  lemma UpToReverse(maxf: int, s: seq<nat>)
    requires UpTo(maxf, s)
    ensures UpTo(maxf, Reverse(s))
  {
  }

  lemma AllUpToMaxf(all: seq<nat>, sq: seq<nat>, mid: seq<nat>, maxf: int)
    requires all == sq + mid + Reverse(sq) && UpTo(maxf, sq) && UpTo(maxf, mid)
    ensures UpTo(maxf, all)
  {
    hide *;
    UpToReverse(maxf, sq);
    UpToConcat(maxf, sq, mid);
    UpToConcat(maxf, sq + mid, Reverse(sq));
  }

  lemma IsLargest(all: seq<nat>, sq: seq<nat>, mid: seq<nat>, maxf: int)
    requires (exists i :: 0 <= i < |all| && all[i] == maxf) && UpTo(maxf, all)
    requires !MissesFour(sq, mid)
    ensures LargestUnlessMissed(maxf, all, sq, mid)
  {
  }

  /** What the four entries that are compared stand for. */
  lemma LargestIs(all: seq<nat>, sq: seq<nat>, mid: seq<nat>, maxf: int)
    requires all == sq + mid + Reverse(sq) && sq + mid != [] && |Reverse(sq)| == |sq|
    requires all[|all| - |sq| - 1] <= maxf && (|sq| > 0 ==> all[|sq| - 1] <= maxf)
    requires (|sq| > 1 ==> all[|sq| - 2] <= maxf) && (|sq| > 2 ==> all[|sq| - 3] <= maxf)
    requires maxf == all[|all| - |sq| - 1] || (|sq| > 0 && maxf == all[|sq| - 1])
          || (|sq| > 1 && maxf == all[|sq| - 2]) || (|sq| > 2 && maxf == all[|sq| - 3])
    ensures LargestOfLast(maxf, sq, mid) && CoversWork(maxf, all, |sq|)
  {
    hide Reverse;
    var k := |sq|;
    assert k > 0 ==> all[k - 1] == sq[k - 1];
    assert k > 1 ==> all[k - 2] == sq[k - 2];
    assert k > 2 ==> all[k - 3] == sq[k - 3];
    assert all[|all| - k - 1] == if mid == [] then sq[k - 1] else mid[|mid| - 1];
  }

  lemma MaxfIsAmong(all: seq<nat>, sq: seq<nat>, mid: seq<nat>, maxf: int)
    requires all == sq + mid + Reverse(sq) && LargestOfLast(maxf, sq, mid)
    ensures exists i :: 0 <= i < |all| && all[i] == maxf
  {
    var k := |sq|;
    var i := if mid != [] && maxf == mid[|mid| - 1] then k + |mid| - 1 else if maxf == sq[k - 1] then k - 1
      else if k > 1 && maxf == sq[k - 2] then k - 2 else k - 3;
    assert all[i] == maxf;
  }

  lemma SquaresUpToMaxf(sq: seq<nat>, mid: seq<nat>, maxf: int)
    requires SquarePart(sq) && LargestOfLast(maxf, sq, mid) && maxf >= 2 && !MissesFour(sq, mid)
    requires BoundsOddFactors(maxf, sq)
    ensures UpTo(maxf, sq)
  {
    forall i | 0 <= i < |sq| ensures sq[i] <= maxf {
      assert SquareFactor(sq[i]);
      if sq[i] == 4 && i < |sq| - 3 {
        assert sq[0] == 4 by {
          assert i > 0 ==> InOrder(sq[0], sq[i]);
        }
      } else if sq[i] != 4 && sq[i] % 2 == 0 {
        ModIffDivides(2, sq[i]);
        assert sq[i] == 2;
      }
    }
  }

  lemma MiddleUpToMaxf(mid: seq<nat>, maxf: int)
    requires MiddlePart(mid) && maxf >= 2 && BoundsOddFactors(maxf, mid) && MiddleEndsWithin(maxf, mid)
    ensures UpTo(maxf, mid)
  {
    if mid != [4] {
      forall i | 0 <= i < |mid| ensures mid[i] <= maxf {
        if i < |mid| - 1 {
          assert mid[i] < mid[|mid| - 1];
        }
      }
    }
  }

  /** 11664 = 2^4 * 3^6 is split into the squares 4, 3, 3 and 3: maxf is 3, although 4 is a factor. */
  lemma FourIsMissed()
    ensures Split(11664, [4, 3, 3, 3], []) && MissesFour([4, 3, 3, 3], [])
  {
    ProductCons(3, []);
    ProductCons(3, [3]);
    ProductCons(3, [3, 3]);
    ProductCons(4, [3, 3, 3]);
    assert [3] + [] == [3] && [3] + [3] == [3, 3] && [3] + [3, 3] == [3, 3, 3] && [4] + [3, 3, 3] == [4, 3, 3, 3];
    ModIffDivides(2, 3);
    assert IsPrime(3);
  }

  const TIGHT_SQUARES: seq<nat> := [3, 3, 3, 3, 3, 3, 2]
  const TIGHT_MIDDLE: seq<nat> := [2, 3]

  /** The bound is attained: 2^3 * 3^13 splits into seven squares and two more factors. */
  lemma FirstRejectedIsTight()
    ensures TooManyFactors(FIRST_REJECTED, TIGHT_SQUARES, TIGHT_MIDDLE)
  {
    TightProducts();
    ModIffDivides(2, 3);
    assert IsPrime(3) && IsPrime(2);
  }

  lemma TightProducts()
    ensures Product(TIGHT_SQUARES) == 1458 && Product(TIGHT_MIDDLE) == 6
  {
    ProductCons(2, []);
    ProductCons(3, [2]);
    ProductCons(3, [3, 2]);
    ProductCons(3, [3, 3, 2]);
    ProductCons(3, [3, 3, 3, 2]);
    ProductCons(3, [3, 3, 3, 3, 2]);
    ProductCons(3, [3, 3, 3, 3, 3, 2]);
    assert [3] + [2] == [3, 2];
    assert [3] + [3, 2] == [3, 3, 2];
    assert [3] + [3, 3, 2] == [3, 3, 3, 2];
    assert [3] + [3, 3, 3, 2] == [3, 3, 3, 3, 2];
    assert [3] + [3, 3, 3, 3, 2] == [3, 3, 3, 3, 3, 2];
    assert [3] + [3, 3, 3, 3, 3, 2] == TIGHT_SQUARES;
    ProductCons(3, []);
    ProductCons(2, [3]);
    assert [2] + [3] == TIGHT_MIDDLE;
  }

  lemma SmallRest(k: nat, mid: seq<nat>)
    requires 1 <= k <= 4 && mid == if k == 1 then [] else [k]
    ensures MiddlePart(mid) && Product(mid) == k
  {
    if k > 1 {
      ProductSnoc([], k);
    }
    if k == 3 {
      ModIffDivides(2, 3);
    }
  }

  lemma ExtractLastTwo(sq: seq<nat>, k: nat, k': nat, n: nat)
    requires SquarePart(sq) && forall i :: 0 <= i < |sq| ==> sq[i] >= 3
    requires Product(sq) * Product(sq) * k == n
    requires NoBigSquare(k) && k > 4 && k % 4 == 0 && k' == k / 4
    ensures SquarePart(sq + [2]) && SquareFree(k') && k' >= 2
    ensures Product(sq + [2]) * Product(sq + [2]) * k' == n
  {
    SquarePartSnoc(sq, 2);
    ProductSnoc(sq, 2);
    DivideSquareOut(Product(sq), 2, k);
    QuotientKeepsNoSquare(k, k');
    NotSixteen(k);
    NoFourNoSquare(k');
  }

  lemma NotSixteen(k: nat)
    requires !Divides(16, k) && k % 4 == 0
    ensures k / 4 % 4 != 0
  {
    ModIffDivides(16, k);
  }

  /** k0 has been divided by the primes mid, all below j; what is left, k, has none below j. */
  ghost predicate Trialling(mid: seq<nat>, j: nat, k: nat, k0: nat) {
    && 2 <= j && 0 < k <= k0
    && IncreasingPrimes(mid)
    && (forall i :: 0 <= i < |mid| ==> mid[i] < j)
    && Product(mid) * k == k0
    && SquareFree(k)
    && NoSmallDivisor(j, k)
  }

  ghost predicate NoSmallDivisor(j: nat, k: nat) {
    forall d: nat :: 2 <= d < j ==> !Divides(d, k)
  }

  lemma RoomForPrime(sq: seq<nat>, mid: seq<nat>, k: nat, n: nat, k0: nat)
    requires SquarePart(sq) && MiddlePart(mid)
    requires Product(mid) * k == k0
    requires Product(sq) * Product(sq) * k0 == n && 0 < n <= INT_MAX
    ensures |sq| + |mid| < NFAC_SIZE
  {
    var p := Product(sq) * Product(sq);
    MulAssoc(p, Product(mid), k);
    RoomForFactor(sq, mid, k, n);
  }

  lemma MulAssoc(a: nat, b: nat, c: nat)
    ensures a * b * c == a * (b * c)
  {
  }

  lemma ExactQuotient(j: nat, k: nat, k': nat)
    requires j > 0 && k > 0 && k % j == 0 && k' == k / j
    ensures k == j * k' && 0 < k' <= k && Divides(k', k)
  {
    assert k == j * k';
    PositiveFactors(j, k');
    MulMono(1, k', j, k');
    assert k' * j == k;
    assert Multiple(k', j, k);
  }

  lemma DivideOut(mid: seq<nat>, j: nat, k: nat, k': nat)
    requires j >= 2 && k % j == 0 && k' == k / j && k > 0
    requires SquareFree(k) && NoSmallDivisor(j, k)
    ensures Product(mid + [j]) * k' == Product(mid) * k
    ensures 0 < k' <= k && SquareFree(k') && NoSmallDivisor(j + 1, k')
  {
    ProductSnoc(mid, j);
    ExactQuotient(j, k, k');
    MulAssoc(Product(mid), j, k');
    DividedOut(j, k, k');
    forall d: nat | 2 <= d < j ensures !Divides(d, k') {
      if Divides(d, k') { DividesTrans(d, k', k); }
    }
  }

  lemma NextTrial(mid: seq<nat>, j: nat, k: nat, k0: nat)
    requires j == 2 || (j >= 3 && j % 2 == 1)
    requires Trialling(mid, j + 1, k, k0)
    ensures Trialling(mid, ((j + 1) / 2) * 2 + 1, k, k0)
    ensures (((j + 1) / 2) * 2 + 1) % 2 == 1
  {
    if j >= 3 {
      NoDivisorPastOddStep(j, k);
    }
  }

  lemma OnlyOneLeft(j: nat, k: nat)
    requires 0 < k < j && NoSmallDivisor(j, k)
    ensures k == 1
  {
    DividesSelf(k);
  }

  /** No odd d in [3, j) has its square dividing k. */
  ghost predicate NoTrialSquare(j: nat, k: nat) {
    forall d: nat :: 3 <= d < j && d % 2 == 1 ==> !SquareDivides(d, k)
  }

  lemma KeepTrialSquares(j: nat, k: nat, k': nat)
    requires k > 0 && Divides(k', k) && !Divides(16, k)
    requires NoTrialSquare(j, k)
    ensures !Divides(16, k')
    ensures NoTrialSquare(j, k')
  {
    if Divides(16, k') { DividesTrans(16, k', k); }
    forall d: nat | 3 <= d < j && d % 2 == 1 ensures !SquareDivides(d, k') {
      if SquareDivides(d, k') { SquareDividesTrans(d, k', k); }
    }
  }

  lemma AtMostSquare(j: nat)
    ensures j <= j * j
  {
  }

  lemma NextTrialSquare(j: nat, k: nat, s: seq<nat>)
    requires j % 2 == 1 && NoTrialSquare(j, k) && !SquareDivides(j, k)
    requires BoundsOddFactors(j, s)
    ensures (j + 2) % 2 == 1 && NoTrialSquare(j + 2, k)
    ensures BoundsOddFactors(j + 2, s)
  {
  }

  lemma NoSquareLeft(j: nat, k: nat)
    requires 0 < k < j * j && !Divides(16, k)
    requires NoTrialSquare(j, k)
    ensures NoBigSquare(k)
  {
    forall d: nat | d >= 3 && d % 2 == 1 ensures !SquareDivides(d, k) {
      if d >= j && SquareDivides(d, k) {
        DividesBound(d * d, k);
        SquareMono(j, d);
      }
    }
  }
}
