/** Euclid's lemma. */
module Primes {
  import opened Naturals

  lemma Quotient(d: nat, n: nat) returns (q: nat)
    requires Divides(d, n)
    ensures d * q == n
  {
    q :| Multiple(d, q, n);
  }

  lemma DividesProduct(d: nat, q: nat)
    ensures Divides(d, d * q)
  {
    assert Multiple(d, q, d * q);
  }

  /** If d divides n and n less a multiple of d is m, then d divides m. */
  lemma DividesRest(d: nat, n: nat, q: nat, m: nat)
    requires Divides(d, n) && n == d * q + m
    ensures Divides(d, m)
  {
    var p := Quotient(d, n);
    assert d * (p - q) == m;
    if d == 0 {
      assert d * q == 0;
      assert Multiple(d, 0, m);
    } else {
      NotNegative(d, p - q);
      assert Multiple(d, p - q, m);
    }
  }

  lemma NotNegative(d: nat, t: int)
    requires d > 0 && d * t >= 0
    ensures t >= 0
  {
  }

  /** Multiplying out what is left of a factor after division. */
  lemma TimesRest(p: nat, q: nat, r: nat, a: nat, b: nat)
    requires a == p * q + r
    ensures a * b == p * (q * b) + r * b
  {
    assert (p * q + r) * b == p * q * b + r * b;
    assert p * q * b == p * (q * b);
  }

  /** Reducing a factor modulo p keeps p a divisor of the product. */
  lemma ReduceFactor(p: nat, a: nat, b: nat)
    requires p > 0 && Divides(p, a * b)
    ensures Divides(p, (a % p) * b)
  {
    var q, r := a / p, a % p;
    TimesRest(p, q, r, a, b);
    hide Divides;
    DividesRest(p, a * b, q * b, r * b);
  }

  /** So does reducing p modulo the factor. */
  lemma ReduceDivisor(p: nat, a: nat, b: nat)
    requires a > 0 && Divides(p, a * b)
    ensures Divides(p, (p % a) * b)
  {
    var q, r := p / a, p % a;
    var t := Quotient(p, a * b);
    TimesRest(a, q, r, p, b);
    hide Divides;
    ThreeFactors(a, q, b, p, t);
    DividesProduct(p, b);
    DividesRest(p, p * b, t * q, r * b);
  }

  lemma ThreeFactors(a: nat, q: nat, b: nat, p: nat, t: nat)
    requires p * t == a * b
    ensures a * (q * b) == p * (t * q)
  {
    assert a * (q * b) == a * b * q;
    assert p * t * q == p * (t * q);
  }

  lemma {:induction false} Euclid(p: nat, a: nat, b: nat)
    requires IsPrime(p) && Divides(p, a * b)
    ensures Divides(p, a) || Divides(p, b)
    decreases a
  {
    ModIffDivides(p, a);
    if a % p == 0 {
    } else if a >= p {
      ReduceFactor(p, a, b);
      NotBelow(p, a % p);
      hide Divides;
      Euclid(p, a % p, b);
    } else if a == 1 {
      assert a * b == b;
    } else {
      ReduceDivisor(p, a, b);
      ModIffDivides(a, p);
      NotBelow(p, p % a);
      hide Divides;
      Euclid(p, p % a, b);
    }
  }

  lemma NotBelow(p: nat, r: nat)
    requires 0 < r < p
    ensures !Divides(p, r)
  {
    if Divides(p, r) {
      DividesBound(p, r);
    }
  }

  lemma PrimeDividesPrime(p: nat, q: nat)
    requires IsPrime(p) && IsPrime(q) && Divides(p, q)
    ensures p == q
  {
    DividesBound(p, q);
  }

  /** A prime that divides a product divides one of the factors. */
  lemma {:induction false} EuclidProduct(p: nat, s: seq<nat>)
    requires IsPrime(p) && Divides(p, Product(s))
    ensures exists i :: 0 <= i < |s| && Divides(p, s[i])
  {
    if s == [] {
      DividesBound(p, 1);
    } else {
      Euclid(p, s[0], Product(s[1..]));
      if !Divides(p, s[0]) {
        EuclidProduct(p, s[1..]);
        var i :| 0 <= i < |s[1..]| && Divides(p, s[1..][i]);
        assert Divides(p, s[i + 1]);
      }
    }
  }

  /** One factor taken out of a product. */
  lemma TakeOut(s: seq<nat>, i: nat)
    requires i < |s|
    ensures Product(s) == s[i] * Product(s[..i] + s[i + 1..])
  {
    hide Product;
    var a, b := s[..i], s[i + 1..];
    assert s == a + ([s[i]] + b);
    ProductAppend(a, [s[i]] + b);
    ProductAppend(a, b);
    ProductCons(s[i], b);
    Exchange(Product(a), s[i], Product(b));
  }

  lemma Exchange(a: nat, x: nat, b: nat)
    ensures a * (x * b) == x * (a * b)
  {
  }

  lemma FactorDivides(s: seq<nat>, i: nat)
    requires i < |s|
    ensures Divides(s[i], Product(s))
  {
    TakeOut(s, i);
    DividesProduct(s[i], Product(s[..i] + s[i + 1..]));
  }

  lemma CancelFactor(x: nat, a: nat, b: nat)
    requires x > 0 && x * a == x * b
    ensures a == b
  {
    assert x * (a - b) == 0;
  }
}

/** The splits of a length into square factors and the rest, and that there is only one. */
module FactorSplits {
  import opened Naturals
  import opened Primes

  /** A square factor: 4 for 16, 2 for a remaining 4, or an odd prime. */
  ghost predicate SquareFactor(f: nat) {
    f == 4 || IsPrime(f)
  }

  ghost predicate IncreasingPrimes(s: seq<nat>) {
    && (forall i :: 0 <= i < |s| ==> IsPrime(s[i]))
    && (forall i, j :: 0 <= i < j < |s| ==> s[i] < s[j])
  }

  /** 4s come first, then odd primes in ascending order. */
  predicate InOrder(f: nat, g: nat) {
    f == 4 || (g != 4 && f <= g)
  }

  /** Squares come as 4s, then odd primes in ascending order, then at most one 2. */
  ghost predicate SquarePart(s: seq<nat>) {
    && (forall i :: 0 <= i < |s| ==> SquareFactor(s[i]))
    && (forall i :: 0 <= i < |s| - 1 ==> s[i] >= 3)
    && (forall i, j :: 0 <= i < j < |s| && s[j] != 2 ==> InOrder(s[i], s[j]))
  }

  ghost predicate MiddlePart(s: seq<nat>) {
    s == [4] || IncreasingPrimes(s)
  }

  /** The square part and the middle part of n; a last square 4 is split off only if something is left. */
  ghost predicate Split(n: nat, sq: seq<nat>, mid: seq<nat>) {
    && SquarePart(sq) && MiddlePart(mid)
    && Product(sq) * Product(sq) * Product(mid) == n
    && (2 in sq ==> mid != [] && mid != [4])
  }

  // ----- which primes divide the parts -----

  lemma DividesFour(p: nat)
    requires IsPrime(p) && Divides(p, 4)
    ensures p == 2
  {
    DividesBound(p, 4);
    ModIffDivides(p, 4);
    ModIffDivides(2, p);
  }

  lemma PrimeInSquares(p: nat, sq: seq<nat>)
    requires IsPrime(p) && Divides(p, Product(sq)) && forall i :: 0 <= i < |sq| ==> SquareFactor(sq[i])
    ensures p in sq || (p == 2 && 4 in sq)
  {
    EuclidProduct(p, sq);
    var i :| 0 <= i < |sq| && Divides(p, sq[i]);
    if sq[i] == 4 {
      DividesFour(p);
    } else {
      PrimeDividesPrime(p, sq[i]);
    }
  }

  lemma PrimeInList(p: nat, s: seq<nat>)
    requires IsPrime(p) && Divides(p, Product(s)) && forall i :: 0 <= i < |s| ==> IsPrime(s[i])
    ensures p in s
  {
    PrimeInSquares(p, s);
    if p == 2 && 4 in s {
      FourIsNoPrime();
    }
  }

  lemma FourIsNoPrime()
    ensures !IsPrime(4)
  {
    assert Multiple(2, 2, 4);
    assert Divides(2, 4);
  }

  /** Increasing primes hold no square: a prime is left in the product at most once. */
  lemma OnceInList(p: nat, s: seq<nat>) returns (rest: nat)
    requires IsPrime(p) && IncreasingPrimes(s) && Divides(p, Product(s))
    ensures Product(s) == p * rest && !Divides(p, rest)
  {
    PrimeInList(p, s);
    var i :| 0 <= i < |s| && s[i] == p;
    var others := s[..i] + s[i + 1..];
    TakeOut(s, i);
    rest := Product(others);
    if Divides(p, rest) {
      PrimeInList(p, others);
      assert false;
    }
  }

  /** If p divides neither square root nor leftover, its square does not divide the whole. */
  lemma NoSquareOf(p: nat, root: nat, mid: seq<nat>)
    requires IsPrime(p) && !Divides(p, root) && IncreasingPrimes(mid)
    ensures !Divides(p * p, root * root * Product(mid))
  {
    var m := Product(mid);
    if Divides(p * p, root * root * m) {
      var q := Quotient(p * p, root * root * m);
      assert p * p * q == p * (p * q);
      DividesProduct(p, p * q);
      NoneInRoot(p, root, m);
      var rest := OnceInList(p, mid);
      Exchange(root * root, p, rest);
      CancelFactor(p, p * q, root * root * rest);
      DividesProduct(p, q);
      NoneInRoot(p, root, rest);
    }
  }

  lemma NoneInRoot(p: nat, root: nat, m: nat)
    requires IsPrime(p) && !Divides(p, root) && Divides(p, root * root * m)
    ensures Divides(p, m)
  {
    Euclid(p, root * root, m);
    if Divides(p, root * root) {
      Euclid(p, root, root);
    }
  }

  // ----- odd squares and 16 -----

  lemma OddPrime(p: nat)
    requires IsPrime(p) && p != 2
    ensures p >= 3 && p % 2 == 1 && !Divides(p, 4)
  {
    ModIffDivides(2, p);
    if Divides(p, 4) {
      DividesFour(p);
    }
  }

  /** The square of an odd prime divides the whole exactly if it is a square factor. */
  lemma OddSquare(p: nat, sq: seq<nat>, mid: seq<nat>)
    requires IsPrime(p) && p != 2 && SquarePart(sq) && MiddlePart(mid)
    ensures Divides(p * p, Product(sq) * Product(sq) * Product(mid)) <==> p in sq
  {
    OddPrime(p);
    if p in sq {
      var i :| 0 <= i < |sq| && sq[i] == p;
      FactorDivides(sq, i);
      SquareOfRoot(p, Product(sq), Product(mid));
    } else {
      if Divides(p, Product(sq)) {
        PrimeInSquares(p, sq);
      }
      if mid == [4] {
        OnlyFourLeft(p, Product(sq));
        assert Product([4]) == 4 * Product([]);
      } else {
        NoSquareOf(p, Product(sq), mid);
      }
    }
  }

  lemma SquareOfRoot(d: nat, root: nat, m: nat)
    requires Divides(d, root)
    ensures Divides(d * d, root * root * m)
  {
    DividesSquare(d, root);
    DividesProduct(root * root, m);
    DividesTrans(d * d, root * root, root * root * m);
  }

  lemma OnlyFourLeft(p: nat, root: nat)
    requires IsPrime(p) && !Divides(p, root) && !Divides(p, 4)
    ensures !Divides(p * p, root * root * 4)
  {
    if Divides(p * p, root * root * 4) {
      DividesProduct(p, p);
      DividesTrans(p, p * p, root * root * 4);
      NoneInRoot(p, root, 4);
    }
  }

  /** Whether 16 divides the whole shows whether there is a 4 among the square factors. */
  lemma Sixteen(n: nat, sq: seq<nat>, mid: seq<nat>)
    requires Split(n, sq, mid)
    ensures Divides(16, n) <==> 4 in sq
  {
    if 4 in sq {
      var i :| 0 <= i < |sq| && sq[i] == 4;
      FactorDivides(sq, i);
      SquareOfRoot(4, Product(sq), Product(mid));
    } else {
      TwoIsPrime();
      if 2 in sq {
        var front := sq[..|sq| - 1];
        assert sq == front + [2];
        ProductSnoc(front, 2);
        NoTwo(front);
        SixteenBesideTwo(Product(front), mid);
      } else {
        NoTwo(sq);
        SixteenInRest(Product(sq), mid);
      }
    }
  }

  lemma TwoIsPrime()
    ensures IsPrime(2)
  {
  }

  lemma NoTwo(sq: seq<nat>)
    requires (forall i :: 0 <= i < |sq| ==> SquareFactor(sq[i])) && 2 !in sq && 4 !in sq
    ensures !Divides(2, Product(sq))
  {
    TwoIsPrime();
    if Divides(2, Product(sq)) {
      PrimeInSquares(2, sq);
    }
  }

  lemma SixteenBesideTwo(root: nat, mid: seq<nat>)
    requires !Divides(2, root) && IncreasingPrimes(mid)
    ensures !Divides(16, (root * 2) * (root * 2) * Product(mid))
  {
    TwoIsPrime();
    NoSquareOf(2, root, mid);
    var m := Product(mid);
    if Divides(16, (root * 2) * (root * 2) * m) {
      var q := Quotient(16, (root * 2) * (root * 2) * m);
      FourTimes(root, m);
      assert 4 * (4 * q) == 4 * (root * root * m);
      DividesProduct(4, q);
    }
  }

  lemma FourTimes(root: nat, m: nat)
    ensures (root * 2) * (root * 2) * m == 4 * (root * root * m)
  {
    assert (root * 2) * (root * 2) == 4 * (root * root);
  }

  lemma SixteenInRest(root: nat, mid: seq<nat>)
    requires !Divides(2, root) && MiddlePart(mid)
    ensures !Divides(16, root * root * Product(mid))
  {
    TwoIsPrime();
    var m := Product(mid);
    if Divides(16, root * root * m) {
      var q := Quotient(16, root * root * m);
      if mid == [4] {
        assert Product([4]) == 4 * Product([]);
        assert 4 * (4 * q) == 4 * (root * root);
        DividesProduct(2, 2 * q);
        Euclid(2, root, root);
      } else {
        DividesProduct(4, 4 * q);
        NoSquareOf(2, root, mid);
      }
    }
  }

  // ----- there is only one split -----

  /** The square factors other than 2 are known from n. */
  lemma SameMembers(n: nat, sq: seq<nat>, mid: seq<nat>, sq': seq<nat>, mid': seq<nat>, f: nat)
    requires Split(n, sq, mid) && Split(n, sq', mid') && f in sq && f != 2
    ensures f in sq'
  {
    assert SquareFactor(f);
    if f == 4 {
      Sixteen(n, sq, mid);
      Sixteen(n, sq', mid');
    } else {
      OddSquare(f, sq, mid);
      OddSquare(f, sq', mid');
    }
  }

  lemma SameFirst(n: nat, sq: seq<nat>, mid: seq<nat>, sq': seq<nat>, mid': seq<nat>)
    requires Split(n, sq, mid) && Split(n, sq', mid') && sq != [] && sq[0] != 2
    ensures sq' != [] && sq'[0] == sq[0]
  {
    var f := sq[0];
    SameMembers(n, sq, mid, sq', mid', f);
    var g := sq'[0];
    assert g != 2 by {
      assert g == 2 ==> |sq'| == 1;
    }
    SameMembers(n, sq', mid', sq, mid, g);
    assert f == g || (InOrder(f, g) && InOrder(g, f));
  }

  /** Without its first square factor a split is one of a smaller number. */
  lemma StripFirst(n: nat, sq: seq<nat>, mid: seq<nat>) returns (rest: nat)
    requires Split(n, sq, mid) && sq != []
    ensures n == sq[0] * sq[0] * rest && (sq[0] != 2 ==> Split(rest, sq[1..], mid))
    ensures rest == Product(sq[1..]) * Product(sq[1..]) * Product(mid)
  {
    var f, p, m := sq[0], Product(sq[1..]), Product(mid);
    rest := p * p * m;
    StripSquare(f, p, m);
    assert 2 in sq[1..] ==> 2 in sq;
  }

  lemma StripSquare(f: nat, p: nat, m: nat)
    ensures (f * p) * (f * p) * m == f * f * (p * p * m)
  {
    var a, b := f * f, p * p;
    assert (f * p) * (f * p) == a * b;
    assert a * b * m == a * (b * m);
  }

  lemma {:induction false} SplitIsUnique(n: nat, sq: seq<nat>, mid: seq<nat>, sq': seq<nat>, mid': seq<nat>)
    requires Split(n, sq, mid) && Split(n, sq', mid')
    ensures sq == sq' && mid == mid'
    decreases |sq| + |sq'|, sq == [] || sq[0] == 2
  {
    if sq != [] && sq[0] != 2 {
      SameFirst(n, sq, mid, sq', mid');
      var rest := StripFirst(n, sq, mid);
      var rest' := StripFirst(n, sq', mid');
      var d := sq[0] * sq[0];
      assert SquareFactor(sq[0]) && d > 0;
      CancelFactor(d, rest, rest');
      SplitIsUnique(rest, sq[1..], mid, sq'[1..], mid');
      assert sq == [sq[0]] + sq[1..] && sq' == [sq[0]] + sq'[1..];
    } else if sq' != [] && sq'[0] != 2 {
      SplitIsUnique(n, sq', mid', sq, mid);
    } else {
      LastSquare(n, sq, mid, sq', mid');
    }
  }

  lemma OnlyTwo(sq: seq<nat>)
    requires SquarePart(sq) && (sq == [] || sq[0] == 2)
    ensures sq == [] || sq == [2]
  {
  }

  lemma SizeOfTwo(n: nat, sq: seq<nat>, mid: seq<nat>)
    requires Split(n, sq, mid) && (sq == [] || sq == [2])
    ensures n == if sq == [] then Product(mid) else 4 * Product(mid)
  {
    assert Product([2]) == 2 * Product([]) == 2;
  }

  /** At most a 2 is left of the square factors. */
  lemma LastSquare(n: nat, sq: seq<nat>, mid: seq<nat>, sq': seq<nat>, mid': seq<nat>)
    requires Split(n, sq, mid) && Split(n, sq', mid')
    requires (sq == [] || sq[0] == 2) && (sq' == [] || sq'[0] == 2)
    ensures sq == sq' && mid == mid'
  {
    OnlyTwo(sq);
    OnlyTwo(sq');
    SizeOfTwo(n, sq, mid);
    SizeOfTwo(n, sq', mid');
    hide Product;
    if sq == [2] && sq' == [] {
      NotFourTimes(mid, mid');
    } else if sq == [] && sq' == [2] {
      NotFourTimes(mid', mid);
    }
    MiddleIsUnique(mid, mid');
  }

  lemma NotFourTimes(mid: seq<nat>, mid': seq<nat>)
    requires IncreasingPrimes(mid) && mid != [] && MiddlePart(mid')
    ensures 4 * Product(mid) != Product(mid')
  {
    var m := Product(mid);
    MiddleAtLeastTwo(mid);
    assert Product([4]) == 4 * Product([]) == 4;
    if 4 * m == Product(mid') {
      if mid' != [4] {
        TwoIsPrime();
        DividesProduct(2, 2 * m);
        var rest := OnceInList(2, mid');
        DividesProduct(2, m);
      }
    }
  }

  lemma MiddleAtLeastTwo(mid: seq<nat>)
    requires IncreasingPrimes(mid) && mid != []
    ensures Product(mid) >= 2
  {
    var p, q := mid[0], Product(mid[1..]);
    ProductPositive(mid[1..]);
    assert p >= 2 && q >= 1;
    MulMono(2, 1, p, q);
  }

  lemma NoPrimesMakeFour(mid: seq<nat>)
    requires IncreasingPrimes(mid)
    ensures Product(mid) != 4
  {
    if Product(mid) == 4 {
      TwoIsPrime();
      DividesProduct(2, 2);
      var rest := OnceInList(2, mid);
      assert rest == 2;
      DividesSelf(2);
    }
  }

  lemma {:induction false} MiddleIsUnique(mid: seq<nat>, mid': seq<nat>)
    requires MiddlePart(mid) && MiddlePart(mid') && Product(mid) == Product(mid')
    ensures mid == mid'
  {
    assert Product([4]) == 4 * Product([]) == 4;
    if mid == [4] {
      if mid' != [4] {
        NoPrimesMakeFour(mid');
      }
    } else if mid' == [4] {
      NoPrimesMakeFour(mid);
    } else if mid == [] || mid' == [] {
      if mid != [] {
        MiddleAtLeastTwo(mid);
      }
      if mid' != [] {
        MiddleAtLeastTwo(mid');
      }
    } else {
      var p, p' := mid[0], mid'[0];
      FactorDivides(mid, 0);
      FactorDivides(mid', 0);
      PrimeInList(p, mid');
      PrimeInList(p', mid);
      assert p == p';
      CancelFactor(p, Product(mid[1..]), Product(mid'[1..]));
      FourInIncreasing(mid);
      FourInIncreasing(mid');
      MiddleIsUnique(mid[1..], mid'[1..]);
      assert mid == [p] + mid[1..] && mid' == [p] + mid'[1..];
    }
  }

  lemma FourInIncreasing(mid: seq<nat>)
    requires IncreasingPrimes(mid) && mid != []
    ensures IncreasingPrimes(mid[1..])
  {
  }
}
