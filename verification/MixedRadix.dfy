/** Mixed-radix digit reversal over a list of factors, and the counter that steps through it. */
module MixedRadix {
  import opened Naturals

  ghost predicate Positive(fs: seq<nat>) {
    forall i :: 0 <= i < |fs| ==> fs[i] > 0
  }

  /** Reads j with least significant digit base fs[0] and writes the digits back reversed. */
  function Reversal(fs: seq<nat>, j: nat): nat
    requires Positive(fs)
  {
    if fs == [] then 0
    else (j % fs[0]) * Product(fs[1..]) + Reversal(fs[1..], j / fs[0])
  }

  // ----- quotients and remainders -----

  lemma DivModUnique(x: nat, d: nat, q: nat, r: nat)
    requires x == d * q + r && r < d
    ensures x / d == q && x % d == r
  {
    assert x == d * (x / d) + x % d;
    assert d * (q - x / d) == x % d - r;
    SmallMultiple(d, q - x / d);
  }

  lemma DivModCompose(x: nat, g: nat, p: nat)
    requires g > 0 && p > 0
    ensures g * p > 0
    ensures x % (g * p) % g == x % g
    ensures x % (g * p) / g == x / g % p
    ensures x / g / p == x / (g * p)
  {
    PositiveProduct(g, p);
    Quotients(x, g, p, g * p, g * (x / g % p) + x % g);
  }

  lemma Quotients(x: nat, g: nat, p: nat, n: nat, z: nat)
    requires g > 0 && p > 0 && n > 0 && n == g * p && z == g * (x / g % p) + x % g
    ensures x % n == z && x / n == x / g / p && z % g == x % g && z / g == x / g % p
  {
    var a, b := x / g, x % g;
    var q, r := a / p, a % p;
    Division(x, g, a, b);
    Division(a, p, q, r);
    Recompose(x, g, p, n, z, a, b, q, r);
    QuotientsOf(x, n, q, z, g, r, b);
  }

  lemma Division(x: nat, d: nat, q: nat, r: nat)
    requires d > 0 && q == x / d && r == x % d
    ensures x == d * q + r && r < d
  {
  }

  lemma QuotientsOf(x: nat, n: nat, q: nat, z: nat, g: nat, r: nat, b: nat)
    requires x == n * q + z && z < n && z == g * r + b && b < g
    ensures x % n == z && x / n == q && z % g == b && z / g == r
  {
    DivModUnique(x, n, q, z);
    DivModUnique(z, g, r, b);
  }

  lemma Recompose(x: nat, g: nat, p: nat, n: nat, z: nat, a: nat, b: nat, q: nat, r: nat)
    requires n == g * p && z == g * r + b && x == g * a + b && a == p * q + r && b < g && r < p
    ensures x == n * q + z && z < n
  {
    Regroup(g, p, q, r, b);
    DigitPlusRest(r, g, b, p);
    MulCommute(r, g);
    MulCommute(p, g);
  }

  lemma PositiveProduct(a: nat, b: nat)
    requires a > 0 && b > 0
    ensures a * b > 0
  {
  }

  lemma Regroup(g: nat, p: nat, q: nat, r: nat, b: nat)
    ensures g * (p * q + r) + b == (g * p) * q + (g * r + b)
  {
  }

  lemma DivBelow(x: nat, f: nat, p: nat)
    requires f > 0 && x < f * p
    ensures x / f < p
  {
    if x / f >= p {
      MulMono(f, p, f, x / f);
    }
  }

  lemma DigitPlusRest(d: nat, p: nat, r: nat, f: nat)
    requires d < f && r < p
    ensures d * p + r < f * p
  {
    MulMono(d + 1, p, f, p);
    assert (d + 1) * p == d * p + p;
  }

  // ----- the reversal is a bijection on [0, Product(fs)) -----

  lemma {:induction false} ReversalBound(fs: seq<nat>, j: nat)
    requires Positive(fs)
    ensures Reversal(fs, j) < Product(fs)
  {
    if fs != [] {
      ReversalBound(fs[1..], j / fs[0]);
      DigitPlusRest(j % fs[0], Product(fs[1..]), Reversal(fs[1..], j / fs[0]), fs[0]);
    }
  }

  lemma {:induction false} ReversalSnoc(gs: seq<nat>, f: nat, x: nat)
    requires Positive(gs) && f > 0 && x < Product(gs) * f
    ensures Positive(gs + [f]) && Product(gs) > 0
    ensures Reversal(gs + [f], x) == Reversal(gs, x % Product(gs)) * f + x / Product(gs)
  {
    ProductPositive(gs);
    var fs := gs + [f];
    if gs == [] {
      assert fs == [f] && fs[1..] == [];
      DivModUnique(x, f, 0, x);
    } else {
      var g, p := gs[0], Product(gs[1..]);
      ProductPositive(gs[1..]);
      assert fs[1..] == gs[1..] + [f];
      ProductSnoc(gs[1..], f);
      MulAssoc3(g, p, f);
      DivBelow(x, g, p * f);
      ReversalSnoc(gs[1..], f, x / g);
      DivModCompose(x, g, p);
      SnocArithmetic(x % g, p, f, Reversal(gs[1..], x / g % p));
    }
  }

  lemma MulAssoc3(a: nat, b: nat, c: nat)
    ensures a * b * c == a * (b * c)
  {
  }

  lemma SnocArithmetic(d: nat, p: nat, f: nat, r: nat)
    ensures d * (p * f) + r * f == (d * p + r) * f
  {
  }

  /** The same when the quotient and the remainder are known. */
  lemma ReversalSnocAt(gs: seq<nat>, f: nat, x: nat, p: nat, low: nat, high: nat)
    requires Positive(gs) && f > 0 && p == Product(gs) && low < p && high < f && x == high * p + low
    ensures Positive(gs + [f]) && Reversal(gs + [f], x) == Reversal(gs, low) * f + high
  {
    DigitPlusRest(high, p, low, f);
    MulCommute(high, p);
    MulCommute(f, p);
    DivModUnique(x, p, high, low);
    ReversalSnoc(gs, f, x);
  }

  /** The first digit of j is d, and the others make up q. */
  lemma ReversalStep(fs: seq<nat>, j: nat) returns (q: nat, d: nat)
    requires Positive(fs) && fs != [] && j < Product(fs)
    ensures d < fs[0] && j == q * fs[0] + d && q < Product(fs[1..])
    ensures Reversal(fs, j) == d * Product(fs[1..]) + Reversal(fs[1..], q)
  {
    q, d := j / fs[0], j % fs[0];
    DivBelow(j, fs[0], Product(fs[1..]));
    Division(j, fs[0], q, d);
    MulCommute(fs[0], q);
  }

  /** Reversing twice, the second time over the reversed factors, gives the index back. */
  lemma {:induction false} ReversalInverse(fs: seq<nat>, j: nat)
    requires Positive(fs) && j < Product(fs)
    ensures Positive(Reverse(fs)) && Product(Reverse(fs)) == Product(fs)
    ensures Reversal(Reverse(fs), Reversal(fs, j)) == j
  {
    ProductReverse(fs);
    if fs != [] {
      var f, rest := fs[0], fs[1..];
      hide Reversal, Product;
      var q, d := ReversalStep(fs, j);
      ReversalInverse(rest, q);
      ReversalBound(rest, q);
      ReversalSnocAt(Reverse(rest), f, Reversal(fs, j), Product(rest), Reversal(rest, q), d);
    }
  }

  lemma MulCommute(a: nat, b: nat)
    ensures a * b == b * a
  {
  }

  /** The last index is all-maximal digits and reverses to itself. */
  lemma {:induction false} ReversalFixesLast(fs: seq<nat>)
    requires Positive(fs)
    ensures Product(fs) > 0 && Reversal(fs, Product(fs) - 1) == Product(fs) - 1
  {
    ProductPositive(fs);
    if fs != [] {
      var f, p := fs[0], Product(fs[1..]);
      ReversalFixesLast(fs[1..]);
      LastArithmetic(f, p);
      DivModUnique(f * p - 1, f, p - 1, f - 1);
    }
  }

  lemma LastArithmetic(f: nat, p: nat)
    requires f > 0 && p > 0
    ensures f * p - 1 == f * (p - 1) + (f - 1) == (f - 1) * p + (p - 1)
  {
  }

  lemma ReversalInjective(fs: seq<nat>, i: nat, j: nat)
    requires Positive(fs) && i < Product(fs) && j < Product(fs)
    requires Reversal(fs, i) == Reversal(fs, j)
    ensures i == j
  {
    ReversalInverse(fs, i);
    ReversalInverse(fs, j);
  }

  // ----- stepping the reversed digits by one -----

  /** Adds one to the leading digit of y and carries to the right. */
  function Carry(fs: seq<nat>, y: nat): nat
    requires Positive(fs) && y + 1 < Product(fs)
  {
    var p := Product(fs[1..]);
    if y + p < fs[0] * p then y + p
    else
      CarryRest(fs[0], p, y);
      Carry(fs[1..], y - (fs[0] * p - p))
  }

  lemma CarryRest(f: nat, p: nat, y: nat)
    requires f > 0 && f * p - p <= y && y + 1 < f * p
    ensures f * p - p >= 0 && y - (f * p - p) + 1 < p
  {
    MulMono(1, p, f, p);
  }

  lemma {:induction false} CarryIsNext(fs: seq<nat>, j: nat)
    requires Positive(fs) && j + 1 < Product(fs)
    ensures Reversal(fs, j) + 1 < Product(fs)
    ensures Carry(fs, Reversal(fs, j)) == Reversal(fs, j + 1)
  {
    var f, rest := fs[0], fs[1..];
    var p, d, q := Product(rest), j % f, j / f;
    var low, y := Reversal(rest, q), Reversal(fs, j);
    ProductPositive(rest);
    ReversalBound(fs, j);
    NotLast(fs, j);
    ReversalBound(rest, q);
    NextDigit(j, f);
    CarryArithmetic(f, p, d, low, y);
    if d + 1 == f {
      DivBelow(j + 1, f, p);
      CarryIsNext(rest, q);
    }
  }

  lemma CarryArithmetic(f: nat, p: nat, d: nat, low: nat, y: nat)
    requires y == d * p + low && low < p && d < f
    ensures d + 1 < f ==> y + p < f * p && y + p == (d + 1) * p + low
    ensures d + 1 == f ==> y + p >= f * p && y - (f * p - p) == low
  {
    MulStep(d, p);
    if d + 1 < f {
      DigitPlusRest(d + 1, p, low, f);
    }
  }

  lemma MulStep(d: nat, p: nat)
    ensures (d + 1) * p == d * p + p
  {
  }

  lemma NextDigit(j: nat, f: nat)
    requires f > 0
    ensures j % f + 1 < f ==> (j + 1) % f == j % f + 1 && (j + 1) / f == j / f
    ensures j % f + 1 == f ==> (j + 1) % f == 0 && (j + 1) / f == j / f + 1
  {
    var d, q := j % f, j / f;
    MulStep(q, f);
    if d + 1 < f {
      DivModUnique(j + 1, f, q, d + 1);
    } else {
      DivModUnique(j + 1, f, q + 1, 0);
    }
  }

  lemma NotLast(fs: seq<nat>, j: nat)
    requires Positive(fs) && j + 1 < Product(fs)
    ensures Reversal(fs, j) != Product(fs) - 1
  {
    ReversalFixesLast(fs);
    if Reversal(fs, j) == Product(fs) - 1 {
      ReversalInjective(fs, j, Product(fs) - 1);
    }
  }
}
