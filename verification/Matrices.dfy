/** Matrices as lists of columns, and the products with them. */
module Matrices {
  import opened Vectors

  type Matrix = seq<Vector>

  ghost predicate Square(a: Matrix, n: nat) {
    |a| == n && forall p :: 0 <= p < n ==> |a[p]| == n
  }

  function Zero(n: nat): (z: Vector)
    ensures |z| == n && forall i :: 0 <= i < n ==> z[i] == 0.0
  {
    seq(n, i => 0.0)
  }

  /** The linear combination of the first k columns with the coefficients x. */
  ghost function Combine(a: Matrix, x: Vector, k: nat): (r: Vector)
    requires Square(a, |x|) && k <= |x|
    ensures |r| == |x|
  {
    if k == 0 then Zero(|x|) else Plus(Combine(a, x, k - 1), Scaled(x[k - 1], a[k - 1]))
  }

  /** The matrix times a vector. */
  ghost function Apply(a: Matrix, x: Vector): (r: Vector)
    requires Square(a, |x|)
    ensures |r| == |x|
  {
    Combine(a, x, |x|)
  }

  /** a and b have the same products of columns: a'a == b'b. */
  ghost predicate SameGram(a: Matrix, b: Matrix, n: nat) {
    Square(a, n) && Square(b, n) && forall p, q :: 0 <= p < n && 0 <= q < n ==> Dot(a[p], a[q]) == Dot(b[p], b[q])
  }

  lemma DotZero(u: Vector)
    ensures Dot(u, Zero(|u|)) == 0.0
  {
    DotZeroTo(u, |u|);
  }

  lemma {:induction false} DotZeroTo(u: Vector, n: nat)
    requires n <= |u|
    ensures DotTo(u, Zero(|u|), n) == 0.0
  {
    if n > 0 {
      DotZeroTo(u, n - 1);
    }
  }

  /** One more column of a combination, seen through a product. */
  lemma DotCombineStep(u: Vector, a: Matrix, x: Vector, k: nat)
    requires Square(a, |x|) && k < |x| == |u|
    ensures Dot(u, Combine(a, x, k + 1)) == Dot(u, Combine(a, x, k)) + Times(x[k], Dot(u, a[k]))
  {
    DotPlus(u, Combine(a, x, k), Scaled(x[k], a[k]));
    DotScale(x[k], u, a[k]);
  }

  /** Equal Gram matrices give equal products a'(a x). */
  lemma {:induction false} GramApplies(a: Matrix, b: Matrix, x: Vector, p: nat, k: nat)
    requires SameGram(a, b, |x|) && p < |x| && k <= |x|
    ensures Dot(a[p], Combine(a, x, k)) == Dot(b[p], Combine(b, x, k))
  {
    hide Dot, Times;
    if k == 0 {
      DotZero(a[p]);
      DotZero(b[p]);
    } else {
      GramApplies(a, b, x, p, k - 1);
      DotCombineStep(a[p], a, x, k - 1);
      DotCombineStep(b[p], b, x, k - 1);
    }
  }

  /** The sum of x[q] times the product of u with column q is the product of u with the combination. */
  lemma {:induction false} DotOfProducts(u: Vector, a: Matrix, x: Vector, w: Vector, k: nat)
    requires Square(a, |x|) && |u| == |w| == |x| && k <= |x|
    requires forall q :: 0 <= q < |x| ==> w[q] == Dot(a[q], u)
    ensures DotTo(w, x, k) == Dot(u, Combine(a, x, k))
  {
    if k == 0 {
      DotZero(u);
    } else {
      DotOfProducts(u, a, x, w, k - 1);
      DotCombineStep(u, a, x, k - 1);
      DotSymmetric(u, a[k - 1]);
      var p, q := w[k - 1], x[k - 1];
      assert p * q == q * p;
    }
  }

  /** a + u w': column p gets w[p] times u. */
  ghost function RankOne(a: Matrix, u: Vector, w: Vector): (b: Matrix)
    requires Square(a, |u|) && |w| == |u|
    ensures Square(b, |u|)
    ensures forall p :: 0 <= p < |u| ==> b[p] == Plus(a[p], Scaled(w[p], u))
  {
    seq(|u|, p requires 0 <= p < |u| => Plus(a[p], Scaled(w[p], u)))
  }

  /** (a + u w') x == a x + (w'x) u. */
  lemma {:induction false} RankOneApplies(a: Matrix, u: Vector, w: Vector, x: Vector, k: nat)
    requires Square(a, |x|) && |u| == |w| == |x| && k <= |x|
    ensures Combine(RankOne(a, u, w), x, k) == Plus(Combine(a, x, k), Scaled(DotTo(w, x, k), u))
  {
    hide DotTo, Times;
    if k == 0 {
      NothingTo(w, x);
      NoneOf(u, DotTo(w, x, 0));
    } else {
      RankOneApplies(a, u, w, x, k - 1);
      NextTerm(w, x, k);
      AddColumn(Combine(a, x, k - 1), a[k - 1], u, DotTo(w, x, k - 1), x[k - 1], w[k - 1]);
    }
  }

  lemma NothingTo(w: Vector, x: Vector)
    requires |w| == |x|
    ensures DotTo(w, x, 0) == 0.0
  {
  }

  lemma NextTerm(w: Vector, x: Vector, k: nat)
    requires 1 <= k <= |w| == |x|
    ensures DotTo(w, x, k) == DotTo(w, x, k - 1) + Times(w[k - 1], x[k - 1])
  {
  }

  lemma NoneOf(u: Vector, d: real)
    requires d == 0.0
    ensures Zero(|u|) == Plus(Zero(|u|), Scaled(d, u))
  {
    forall i | 0 <= i < |u| ensures Zero(|u|)[i] == Plus(Zero(|u|), Scaled(d, u))[i] {
      assert d * u[i] == 0.0;
    }
  }

  lemma AddColumn(c: Vector, a: Vector, u: Vector, d: real, x: real, w: real)
    requires |c| == |a| == |u|
    ensures Plus(Plus(c, Scaled(d, u)), Scaled(x, Plus(a, Scaled(w, u)))) ==
            Plus(Plus(c, Scaled(x, a)), Scaled(d + Times(w, x), u))
  {
    forall i | 0 <= i < |u|
      ensures Plus(Plus(c, Scaled(d, u)), Scaled(x, Plus(a, Scaled(w, u))))[i] ==
              Plus(Plus(c, Scaled(x, a)), Scaled(d + Times(w, x), u))[i]
    {
      RankOneEntry(c[i], d, u[i], x, a[i], w);
    }
  }

  lemma RankOneEntry(c: real, d: real, u: real, x: real, a: real, w: real)
    ensures c + d * u + x * (a + w * u) == c + x * a + (d + Times(w, x)) * u
  {
    assert x * (a + w * u) == x * a + x * (w * u);
    assert x * (w * u) == (w * x) * u;
    assert (d + w * x) * u == d * u + (w * x) * u;
  }
}
