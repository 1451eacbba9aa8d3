/** Products, factorials and divisibility of naturals. */
module Naturals {

  /** d divides n, witnessed by the quotient. */
  ghost predicate Divides(d: nat, n: nat) {
    exists q: nat :: Multiple(d, q, n)
  }

  ghost predicate Multiple(d: nat, q: nat, n: nat) {
    d * q == n
  }

  lemma ModIffDivides(d: nat, n: nat)
    requires d > 0
    ensures n % d == 0 <==> Divides(d, n)
  {
    if n % d == 0 {
      assert Multiple(d, n / d, n);
    }
    if Divides(d, n) {
      var q: nat :| Multiple(d, q, n);
      MultipleMod(d, q);
    }
  }

  lemma MultipleMod(d: nat, q: nat)
    requires d > 0
    ensures d * q % d == 0 && d * q / d == q
  {
    var n := d * q;
    var r := n % d;
    assert n == d * (n / d) + r;
    assert d * (q - n / d) == r;
    SmallMultiple(d, q - n / d);
  }

  lemma SmallMultiple(d: nat, t: int)
    requires d > 0 && -(d as int) < d * t < d
    ensures t == 0
  {
  }

  lemma DividesTrans(a: nat, b: nat, c: nat)
    requires Divides(a, b) && Divides(b, c)
    ensures Divides(a, c)
  {
    var p: nat :| Multiple(a, p, b);
    var q: nat :| Multiple(b, q, c);
    assert a * p * q == a * (p * q);
    assert Multiple(a, p * q, c);
  }

  lemma DividesBound(d: nat, n: nat)
    requires Divides(d, n) && n > 0
    ensures 0 < d <= n
  {
    var q: nat :| Multiple(d, q, n);
    PositiveFactors(d, q);
  }

  lemma PositiveFactors(d: nat, q: nat)
    requires d * q > 0
    ensures 0 < d <= d * q && 0 < q
  {
  }

  ghost predicate SquareDivides(d: nat, n: nat) {
    Divides(d * d, n)
  }

  lemma SquareDividesTrans(d: nat, k': nat, k: nat)
    requires SquareDivides(d, k') && Divides(k', k)
    ensures SquareDivides(d, k)
  {
    DividesTrans(d * d, k', k);
  }

  lemma SquareChain(d: nat, j: nat, k: nat)
    requires Divides(d, j) && SquareDivides(j, k)
    ensures SquareDivides(d, k)
  {
    DividesSquare(d, j);
    DividesTrans(d * d, j * j, k);
  }

  lemma RepeatedFactor(j: nat, k': nat)
    requires Divides(j, k')
    ensures SquareDivides(j, j * k')
  {
    var q: nat :| Multiple(j, q, k');
    assert j * (j * q) == (j * j) * q;
    assert Multiple(j * j, q, j * k');
  }

  lemma MulMono(a: nat, b: nat, c: nat, d: nat)
    requires a <= c && b <= d
    ensures a * b <= c * d
  {
    assert a * b <= c * b <= c * d;
  }

  lemma DividesSelf(n: nat)
    ensures Divides(n, n)
  {
    assert Multiple(n, 1, n);
  }

  lemma SquareMono(d: nat, e: nat)
    requires d <= e
    ensures d * d <= e * e
  {
    assert d * d <= d * e <= e * e;
  }

  lemma DividesSquare(d: nat, n: nat)
    requires Divides(d, n)
    ensures Divides(d * d, n * n)
  {
    var q: nat :| Multiple(d, q, n);
    assert (d * q) * (d * q) == (d * d) * (q * q);
    assert Multiple(d * d, q * q, n * n);
  }

  ghost predicate IsPrime(p: nat) {
    p >= 2 && forall d: nat :: 2 <= d < p ==> !Divides(d, p)
  }

  function Product(s: seq<nat>): nat {
    if s == [] then 1 else s[0] * Product(s[1..])
  }

  lemma {:induction false} ProductAppend(s: seq<nat>, t: seq<nat>)
    ensures Product(s + t) == Product(s) * Product(t)
  {
    if s == [] {
      assert s + t == t;
    } else {
      assert (s + t)[1..] == s[1..] + t;
      ProductAppend(s[1..], t);
      assert s[0] * (Product(s[1..]) * Product(t)) == s[0] * Product(s[1..]) * Product(t);
    }
  }

  lemma ProductCons(x: nat, s: seq<nat>)
    ensures Product([x] + s) == x * Product(s)
  {
    assert ([x] + s)[1..] == s;
  }

  lemma ProductSnoc(s: seq<nat>, x: nat)
    ensures Product(s + [x]) == Product(s) * x
  {
    ProductAppend(s, [x]);
    assert Product([x]) == x * Product([]);
  }

  function Factorial(r: nat): nat {
    if r == 0 then 1 else r * Factorial(r - 1)
  }

  function Reverse<T>(s: seq<T>): (r: seq<T>)
    ensures |r| == |s|
    ensures forall i :: 0 <= i < |s| ==> r[i] == s[|s| - 1 - i]
  {
    if s == [] then [] else Reverse(s[1..]) + [s[0]]
  }

  lemma {:induction false} ProductReverse(s: seq<nat>)
    ensures Product(Reverse(s)) == Product(s)
  {
    if s != [] {
      ProductSnoc(Reverse(s[1..]), s[0]);
      ProductReverse(s[1..]);
    }
  }

  lemma {:induction false} ProductPositive(s: seq<nat>)
    requires forall i :: 0 <= i < |s| ==> s[i] > 0
    ensures Product(s) > 0
  {
    if s != [] {
      ProductPositive(s[1..]);
      assert s[0] * Product(s[1..]) >= 1;
    }
  }
}
