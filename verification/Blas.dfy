/** The BLAS level 1 routines on the columns of matrices. Vectors and matrices are indexed from 1. */
module Blas {
  import opened Vectors

  ghost function Vec(a: array<real>): (v: Vector)
    requires a.Length >= 1
    reads a
    ensures |v| == a.Length - 1
  {
    a[1..]
  }

  ghost function Column(a: array2<real>, p: int): (v: Vector)
    requires a.Length0 >= 1 && 0 <= p < a.Length1
    reads a
    ensures |v| == a.Length0 - 1 && forall i :: 0 <= i < |v| ==> v[i] == a[i + 1, p]
  {
    seq(a.Length0 - 1, i requires 0 <= i < a.Length0 - 1 reads a => a[i + 1, p])
  }

  /** Copies count entries downwards from [fromRow, from] to [toRow, to]. */
  method Dcopy(a: array2<real>, count: nat, fromRow: nat, from: nat, toRow: nat, to: nat)
    requires from != to && from < a.Length1 && to < a.Length1
    requires count > 0 ==> fromRow + count <= a.Length0 && toRow + count <= a.Length0
    modifies a
    ensures forall k :: toRow <= k < toRow + count ==> a[k, to] == old(a[k - toRow + fromRow, from])
    ensures forall i, j :: 0 <= i < a.Length0 && 0 <= j < a.Length1 && (j != to || i < toRow || i >= toRow + count) ==>
      a[i, j] == old(a[i, j])
  {
    var k := 0;
    while k < count
      invariant 0 <= k <= count
      invariant forall l :: toRow <= l < toRow + k ==> a[l, to] == old(a[l - toRow + fromRow, from])
      invariant forall i, j :: 0 <= i < a.Length0 && 0 <= j < a.Length1 && (j != to || i < toRow || i >= toRow + k) ==>
        a[i, j] == old(a[i, j])
    {
      a[toRow + k, to] := a[fromRow + k, from];
      k := k + 1;
    }
  }

  /** y := y + a x. */
  method Daxpy(a: real, x: array<real>, y: array<real>)
    requires x != y && x.Length == y.Length >= 1
    modifies y
    ensures Vec(y) == Plus(old(Vec(y)), Scaled(a, Vec(x)))
  {
    ghost var goal := Plus(Vec(y), Scaled(a, Vec(x)));
    var k := 1;
    while k < x.Length
      invariant 1 <= k <= x.Length
      invariant forall i :: 1 <= i < k ==> y[i] == goal[i - 1]
      invariant forall i :: k <= i < x.Length ==> y[i] == old(y[i])
    {
      y[k] := y[k] + a * x[k];
      k := k + 1;
    }
    assert Vec(y) == goal;
  }

  /** Copies a vector into a column. */
  method CopyToColumn(x: array<real>, a: array2<real>, p: nat)
    requires 1 <= x.Length == a.Length0 && p < a.Length1
    modifies a
    ensures Column(a, p) == Vec(x)
    ensures forall q :: 0 <= q < a.Length1 && q != p ==> Column(a, q) == old(Column(a, q))
  {
    var k := 1;
    while k < x.Length
      invariant 1 <= k <= x.Length
      invariant forall i :: 1 <= i < k ==> a[i, p] == x[i]
      invariant forall i, q :: 0 <= i < a.Length0 && 0 <= q < a.Length1 && q != p ==> a[i, q] == old(a[i, q])
    {
      a[k, p] := x[k];
      k := k + 1;
    }
  }

  /** The product of the vectors whose entries are numbered from first on. */
  method Ddot(x: array<real>, y: array<real>, first: nat) returns (s: real)
    requires first <= x.Length == y.Length
    ensures s == Dot(x[first..], y[first..])
  {
    hide DotTo;
    s := 0.0;
    var k := first;
    NoTerms(x[first..], y[first..]);
    while k < x.Length
      invariant first <= k <= x.Length && s == DotTo(x[first..], y[first..], k - first)
    {
      OneMoreTerm(x[first..], y[first..], k - first, x[k]);
      s := s + x[k] * y[k];
      k := k + 1;
    }
  }

  method DdotColumn(x: array<real>, a: array2<real>, p: nat) returns (s: real)
    requires x.Length == a.Length0 >= 1 && p < a.Length1
    ensures s == Dot(Vec(x), Column(a, p))
  {
    s := 0.0;
    var k := 1;
    while k < x.Length
      invariant 1 <= k <= x.Length && s == DotTo(Vec(x), Column(a, p), k - 1)
    {
      s := s + x[k] * a[k, p];
      k := k + 1;
    }
  }

  method Dscal(c: real, x: array<real>)
    requires x.Length >= 1
    modifies x
    ensures Vec(x) == Scaled(c, old(Vec(x)))
  {
    ghost var v := Vec(x);
    var k := 1;
    while k < x.Length
      invariant 1 <= k <= x.Length
      invariant forall i :: 1 <= i < k ==> x[i] == Scaled(c, v)[i - 1]
      invariant forall i :: k <= i < x.Length ==> x[i] == v[i - 1]
    {
      x[k] := c * x[k];
      k := k + 1;
    }
    assert Vec(x) == Scaled(c, v);
  }
}
