/** secunf: the same update, made on the Hessian itself. */
module Secunf {
  import opened Basics
  import opened Vectors
  import opened Matrices
  import opened QrUpdate
  import opened Bfgs
  import opened Blas
  import opened Secfac

  /** The symmetric matrix whose lower triangle is that of a. */
  ghost function Lower(a: array2<real>): (h: Matrix)
    requires a.Length0 == a.Length1
    reads a
    ensures Square(h, a.Length0)
    ensures forall p, q :: 0 <= q <= p < a.Length0 ==> h[p][q] == a[p, q] && h[q][p] == a[p, q]
  {
    seq(a.Length0, p requires 0 <= p < a.Length0 reads a => seq(a.Length0, q requires 0 <= q < a.Length0 reads a =>
      if q <= p then a[p, q] else a[q, p]))
  }

  /** The symmetric matrix whose strict upper triangle is that of a and whose diagonal is udiag. */
  ghost function Upper(a: array2<real>, udiag: Vector): (h: Matrix)
    requires a.Length0 == a.Length1 == |udiag|
    reads a
    ensures Square(h, a.Length0)
    ensures forall p, q :: 0 <= q <= p < a.Length0 ==>
      var v := if q == p then udiag[p] else a[q, p]; h[p][q] == v && h[q][p] == v
  {
    seq(a.Length0, p requires 0 <= p < a.Length0 reads a => seq(a.Length0, q requires 0 <= q < a.Length0 reads a =>
      if q == p then udiag[p] else if q < p then a[q, p] else a[p, q]))
  }

  /** Copies the upper triangle and the diagonal to the lower triangle. */
  method CopyDown(a: array2<real>, udiag: Vector)
    requires a.Length0 == a.Length1 == |udiag|
    modifies a
    ensures Lower(a) == old(Upper(a, udiag))
  {
    var n := |udiag|;
    var i := 0;
    while i < n
      invariant 0 <= i <= n
      invariant forall p, q :: 0 <= q <= p < i ==> a[p, q] == if q == p then udiag[p] else old(a[q, p])
      invariant forall p, q :: 0 <= q < p < n ==> a[q, p] == old(a[q, p])
    {
      a[i, i] := udiag[i];
      var j := 0;
      while j < i
        invariant 0 <= j <= i
        invariant forall p, q :: 0 <= q <= p < n && (p < i || (p == i && (q < j || q == i))) ==>
          a[p, q] == if q == p then udiag[p] else old(a[q, p])
        invariant forall p, q :: 0 <= q < p < n ==> a[q, p] == old(a[q, p])
      {
        a[i, j] := a[j, i];
        j := j + 1;
      }
      i := i + 1;
    }
    ghost var h := old(Upper(a, udiag));
    forall p | 0 <= p < n ensures Lower(a)[p] == h[p] {
      forall q | 0 <= q < n ensures Lower(a)[p][q] == h[p][q] {
        if q <= p {
          assert Lower(a)[p][q] == a[p, q];
        } else {
          assert Lower(a)[p][q] == a[q, p];
        }
      }
    }
  }

  /** mvmlts: y = a x. */
  method Mvmlts(a: array2<real>, x: array<real>, y: array<real>)
    requires a.Length0 == a.Length1 == x.Length == y.Length && x != y
    modifies y
    ensures y[..] == MatVec(Lower(a), x[..])
  {
    hide Dot;
    var i := 0;
    while i < y.Length
      invariant 0 <= i <= y.Length
      invariant forall k :: 0 <= k < i ==> y[k] == MatVec(Lower(a), x[..])[k]
    {
      var sum := SymmetricProduct(a, i, x);
      y[i] := sum;
      i := i + 1;
    }
  }

  method SymmetricProduct(a: array2<real>, i: nat, x: array<real>) returns (sum: real)
    requires i < a.Length0 == a.Length1 == x.Length
    ensures sum == Dot(Lower(a)[i], x[..])
  {
    var left := LeftProduct(a, i, x);
    hide *;
    sum := left;
    var j := i + 1;
    while j < x.Length
      invariant i + 1 <= j <= x.Length && sum == DotTo(Lower(a)[i], x[..], j)
    {
      NextRight(a, i, x, j);
      sum := sum + a[j, i] * x[j];
      j := j + 1;
    }
    WholeDot(Lower(a)[i], x[..]);
  }

  /** The part of the product up to the diagonal. */
  method LeftProduct(a: array2<real>, i: nat, x: array<real>) returns (sum: real)
    requires i < a.Length0 == a.Length1 == x.Length
    ensures |Lower(a)| == x.Length == |Lower(a)[i]| && sum == DotTo(Lower(a)[i], x[..], i + 1)
  {
    assert |Lower(a)| == x.Length == |Lower(a)[i]|;
    NoTerms(Lower(a)[i], x[..]);
    hide *;
    sum := 0.0;
    var j := 0;
    while j <= i
      invariant 0 <= j <= i + 1 && sum == DotTo(Lower(a)[i], x[..], j)
    {
      NextLeft(a, i, x, j);
      sum := sum + a[i, j] * x[j];
      j := j + 1;
    }
  }

  lemma NextLeft(a: array2<real>, i: nat, x: array<real>, j: nat)
    requires j <= i < a.Length0 == a.Length1 == x.Length
    ensures DotTo(Lower(a)[i], x[..], j + 1) == DotTo(Lower(a)[i], x[..], j) + a[i, j] * x[j]
  {
    OneMoreTerm(Lower(a)[i], x[..], j, a[i, j]);
  }

  lemma NextRight(a: array2<real>, i: nat, x: array<real>, j: nat)
    requires i < j < a.Length0 == a.Length1 == x.Length
    ensures DotTo(Lower(a)[i], x[..], j + 1) == DotTo(Lower(a)[i], x[..], j) + a[j, i] * x[j]
  {
    OneMoreTerm(Lower(a)[i], x[..], j, a[j, i]);
  }

  lemma WholeDot(u: Vector, v: Vector)
    requires |u| == |v|
    ensures Dot(u, v) == DotTo(u, v, |u|)
  {
  }

  /** Multiplies column j of the lower triangle by c. */
  method ScaleColumn(a: array2<real>, c: real, j: nat)
    requires j < a.Length0 == a.Length1
    modifies a
    ensures forall p, q :: 0 <= q <= p < a.Length0 ==>
      a[p, q] == if q == j then Times(c, old(a[p, q])) else old(a[p, q])
  {
    var i := j;
    while i < a.Length0
      invariant j <= i <= a.Length0
      invariant forall p, q :: 0 <= q <= p < a.Length0 ==>
        a[p, q] == if q == j && p < i then Times(c, old(a[p, q])) else old(a[p, q])
    {
      hide Times;
      Commute(a[i, j], c);
      a[i, j] := a[i, j] * c;
      i := i + 1;
    }
  }

  /** Multiplies the lower triangle by c. */
  method ScaleLower(a: array2<real>, c: real)
    requires a.Length0 == a.Length1
    modifies a
    ensures Lower(a) == ScaledMatrix(c, old(Lower(a)), a.Length0)
  {
    hide Times;
    var n := a.Length0;
    ghost var h := Lower(a);
    var j := 0;
    while j < n
      invariant 0 <= j <= n
      invariant forall p, q :: 0 <= q <= p < n ==> a[p, q] == if q < j then Times(c, h[p][q]) else h[p][q]
    {
      ScaleColumn(a, c, j);
      j := j + 1;
    }
    ScaledBelow(c, h, n);
    SameBelow(a, ScaledMatrix(c, h, n));
  }

  lemma ScaledBelow(c: real, h: Matrix, n: nat)
    requires Square(h, n)
    ensures forall p, q :: 0 <= p < n && 0 <= q < n ==> ScaledMatrix(c, h, n)[p][q] == Times(c, h[p][q])
  {
  }

  /** A symmetric matrix is determined by its lower triangle. */
  lemma SameBelow(a: array2<real>, h: Matrix)
    requires a.Length0 == a.Length1 && Square(h, a.Length0)
    requires forall p, q :: 0 <= q <= p < a.Length0 ==> a[p, q] == h[p][q] && h[q][p] == h[p][q]
    ensures Lower(a) == h
  {
    var l := Lower(a);
    forall p | 0 <= p < |h| ensures l[p] == h[p] {
      forall q | 0 <= q < |h| ensures l[p][q] == h[p][q] {
        if q <= p {
          assert l[p][q] == a[p, q];
        } else {
          assert l[p][q] == a[q, p] == h[q][p];
        }
      }
    }
  }

  /** The loops of the update. */
  method AddUpdate(a: array2<real>, y: array<real>, t: array<real>, den1: real, den2: real, ghost s: Vector)
    requires a.Length0 == a.Length1 == y.Length == t.Length == |s|
    requires den1 == Dot(s, y[..]) != 0.0 && den2 == Dot(s, t[..]) != 0.0 && t[..] == MatVec(Lower(a), s)
    modifies a
    ensures Lower(a) == Update(old(Lower(a)), s, y[..])
  {
    hide Dot, UpdatedEntry;
    var n := a.Length0;
    ghost var h := Lower(a);
    var j := 0;
    while j < n
      invariant 0 <= j <= n
      invariant forall p, q :: 0 <= q <= p < n ==>
        a[p, q] == if q < j then UpdatedEntry(h[p][q], y[p], y[q], t[p], t[q], den1, den2) else h[p][q]
    {
      var i := j;
      while i < n
        invariant j <= i <= n
        invariant forall p, q :: 0 <= q <= p < n ==>
          a[p, q] == if q < j || (q == j && p < i) then UpdatedEntry(h[p][q], y[p], y[q], t[p], t[q], den1, den2)
            else h[p][q]
      {
        a[i, j] := UpdatedEntry(a[i, j], y[i], y[j], t[i], t[j], den1, den2);
        i := i + 1;
      }
      j := j + 1;
    }
    forall p, q | 0 <= q <= p < n ensures Update(h, s, y[..])[q][p] == Update(h, s, y[..])[p][q] {
      assert h[p][q] == h[q][p];
      SymmetricEntry(h[p][q], y[p], y[q], t[p], t[q], den1, den2);
    }
    SameBelow(a, Update(h, s, y[..]));
  }

  lemma SymmetricEntry(h: real, yp: real, yq: real, tp: real, tq: real, den1: real, den2: real)
    requires den1 != 0.0 && den2 != 0.0
    ensures UpdatedEntry(h, yp, yq, tp, tq, den1, den2) == UpdatedEntry(h, yq, yp, tq, tp, den1, den2)
  {
    assert yp * yq == yq * yp && tp * tq == tq * tp;
  }

  /** The loop that decides whether the update is skipped, with the tolerance as secunf computes it. */
  method IsCloseUnf(t: array<real>, y: array<real>, g: Vector, gpls: Vector, rnf: real, iagflg: int, root: real -> real,
                    ghost st: Step)
    returns (skpupd: bool)
    requires IsRoot(root) && rnf > 0.0
    requires st.Sized(t.Length) && y[..] == st.y && g == st.g && gpls == st.gpls
    requires st.reltol == if iagflg == 0 then root(rnf) else rnf
    ensures skpupd <==> Close(st, t[..])
  {
    hide Times;
    var i := 0;
    while i < t.Length
      invariant 0 <= i <= t.Length
      invariant forall k :: 0 <= k < i ==> Abs(st.y[k] - t[k]) < Tolerance(st, k)
    {
      var tol := ToleranceUnf(Max(Abs(g[i]), Abs(gpls[i])), rnf, iagflg, root);
      assert y[i] == y[..][i] && t[..][i] == t[i];
      if Abs(y[i] - t[i]) >= tol {
        return false;
      }
      i := i + 1;
    }
    return true;
  }

  method ToleranceUnf(m: real, rnf: real, iagflg: int, root: real -> real) returns (tol: real)
    requires IsRoot(root) && rnf > 0.0
    ensures tol == Times(if iagflg == 0 then root(rnf) else rnf, m)
  {
    RootPositive(rnf, root);
    tol := rnf * m;
    if iagflg == 0 {
      SameTolerance(rnf, root(rnf), root(rnf), m);
      tol := tol / root(rnf);
    }
  }

  lemma SameTolerance(rnf: real, r: real, r': real, m: real)
    requires r > 0.0 && r == r' && Times(r, r') == rnf
    ensures rnf * m / r == Times(r, m)
  {
    assert rnf * m == (r' * m) * r;
    Quotient(r' * m, r);
  }

  lemma Quotient(x: real, r: real)
    requires r != 0.0
    ensures (x * r) / r == x
  {
  }

  /** secunf. The Hessian, in the upper triangle of a and udiag, becomes the next one in the lower triangle. */
  method Secunf(a: array2<real>, udiag: Vector, x: Vector, g: Vector, xpls: Vector, gpls: Vector, epsm: real,
                itncnt: int, rnf: real, iagflg: int, s: array<real>, y: array<real>, t: array<real>, root: real -> real)
    returns (outcome: Outcome, noupdt: bool)
    requires IsRoot(root) && a.Length0 == a.Length1 == s.Length == y.Length == t.Length
    requires |udiag| == |x| == |g| == |xpls| == |gpls| == a.Length0 && epsm >= 0.0 && rnf > 0.0
    requires s != y && s != t && y != t
    modifies a, s, y, t
    ensures var st, h := StepOf(x, g, xpls, gpls, epsm, itncnt, rnf, iagflg, root), old(Upper(a, udiag));
      && outcome == Decide(st, MatVec(h, st.s), Dot(st.s, MatVec(h, st.s)))
      && (outcome != Undefined ==> Lower(a) == Next(st, h))
    ensures outcome != Undefined ==> (noupdt <==> itncnt == 1 && outcome == Flat)
    ensures outcome == Updated ==> MatVec(Lower(a), Minus(xpls, x)) == Minus(gpls, g)
  {
    hide Dot, Close, Update, MatVec, Upper;
    ghost var st := StepOf(x, g, xpls, gpls, epsm, itncnt, rnf, iagflg, root);
    ghost var h := Upper(a, udiag);
    CopyDown(a, udiag);
    noupdt := itncnt == 1;
    Difference(s, xpls, x);
    Difference(y, gpls, g);
    var den1 := Ddot(s, y, 0);
    var ss := Ddot(s, s, 0);
    var yy := Ddot(y, y, 0);
    var snorm2, ynrm2 := root(ss), root(yy);
    if den1 < root(epsm) * snorm2 * ynrm2 {
      return Flat, noupdt;
    }
    outcome := UpdateUnf(a, s, y, t, g, gpls, rnf, iagflg, noupdt, den1, root, st);
    noupdt := false;
    if outcome == Updated {
      NextIsSecant(st, h);
    }
  }

  /** secunf after the curvature test. */
  method UpdateUnf(a: array2<real>, s: array<real>, y: array<real>, t: array<real>, g: Vector, gpls: Vector, rnf: real,
                   iagflg: int, first: bool, den1: real, root: real -> real, ghost st: Step)
    returns (outcome: Outcome)
    requires IsRoot(root) && rnf > 0.0 && a.Length0 == a.Length1 == s.Length == y.Length == t.Length
    requires s != y && s != t && y != t && st.Sized(t.Length) && s[..] == st.s && y[..] == st.y
    requires g == st.g && gpls == st.gpls && st.reltol == if iagflg == 0 then root(rnf) else rnf
    requires first == st.first && den1 == Dot(st.s, st.y) >= st.flat
    modifies a, t
    ensures outcome == Decide(st, MatVec(old(Lower(a)), st.s), Dot(st.s, MatVec(old(Lower(a)), st.s)))
    ensures outcome != Undefined ==> Lower(a) == Next(st, old(Lower(a)))
  {
    hide Dot, Close, Update, MatVec, Times;
    ghost var h := Lower(a);
    Mvmlts(a, s, t);
    var den2 := Ddot(s, t, 0);
    ghost var c := Gamma(st, den2);
    Rescaled(st, h);
    if first {
      if den2 == 0.0 {
        return Undefined;
      }
      var gam := den1 / den2;
      RatioBack(den1, den2);
      den2 := den2 * gam;
      Scale(t, gam);
      ScaleLower(a, gam);
    } else {
      UnitScaled(h, t[..]);
    }
    outcome := FinishUnf(a, y, t, g, gpls, rnf, iagflg, den1, den2, root, st);
  }

  lemma RatioBack(d: real, e: real)
    requires e != 0.0
    ensures e * (d / e) == d
  {
  }

  lemma UnitScaled(h: Matrix, t: Vector)
    requires Square(h, |t|)
    ensures ScaledMatrix(1.0, h, |t|) == h && Scaled(1.0, t) == t
  {
    forall p | 0 <= p < |t| ensures ScaledMatrix(1.0, h, |t|)[p] == h[p] {
    }
  }

  /** secunf after the rescaling. */
  method FinishUnf(a: array2<real>, y: array<real>, t: array<real>, g: Vector, gpls: Vector, rnf: real, iagflg: int,
                   den1: real, den2: real, root: real -> real, ghost st: Step)
    returns (outcome: Outcome)
    requires IsRoot(root) && rnf > 0.0 && a.Length0 == a.Length1 == y.Length == t.Length && st.Sized(t.Length)
    requires y[..] == st.y && g == st.g && gpls == st.gpls && st.reltol == if iagflg == 0 then root(rnf) else rnf
    requires t[..] == MatVec(Lower(a), st.s) && den1 == Dot(st.s, st.y) && den2 == Dot(st.s, t[..])
    modifies a
    ensures outcome == if Close(st, t[..]) then Agrees else if den1 == 0.0 || den2 == 0.0 then Undefined else Updated
    ensures outcome == Agrees ==> Lower(a) == old(Lower(a))
    ensures outcome == Updated ==> Lower(a) == Update(old(Lower(a)), st.s, st.y)
  {
    hide Dot, Close, MatVec;
    var skpupd := IsCloseUnf(t, y, g, gpls, rnf, iagflg, root, st);
    if skpupd {
      return Agrees;
    }
    if den1 == 0.0 || den2 == 0.0 {
      return Undefined;
    }
    AddUpdate(a, y, t, den1, den2, st.s);
    return Updated;
  }
}
