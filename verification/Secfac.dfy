/** secfac: the BFGS update of a Cholesky factor. */
module Secfac {
  import opened Basics
  import opened Vectors
  import opened Matrices
  import opened QrUpdate
  import opened Bfgs
  import opened Blas

  /** The products of the columns: r'r. For r = l' this is ll'. */
  ghost function GramOf(r: Matrix, n: nat): (h: Matrix)
    requires Square(r, n)
    ensures Square(h, n)
    ensures forall p, q :: 0 <= p < n && 0 <= q < n ==> h[p][q] == Dot(r[p], r[q])
  {
    seq(n, p requires 0 <= p < n => seq(n, q requires 0 <= q < n => Dot(r[p], r[q])))
  }

  /** ll's is l applied to l's. */
  lemma GramTimes(r: Matrix, s: Vector)
    requires Square(r, |s|)
    ensures forall p :: 0 <= p < |s| ==> MatVec(GramOf(r, |s|), s)[p] == Dot(r[p], Apply(r, s))
    ensures Dot(s, MatVec(GramOf(r, |s|), s)) == Dot(Apply(r, s), Apply(r, s))
  {
    hide Dot;
    var h, v := GramOf(r, |s|), Apply(r, s);
    forall p | 0 <= p < |s| ensures Dot(h[p], s) == Dot(r[p], v) {
      forall q | 0 <= q < |s| ensures h[p][q] == Dot(r[q], r[p]) {
        DotSymmetric(r[p], r[q]);
      }
      ProductsAlong(r[p], r, s, h[p]);
    }
    ProductsAlong(v, r, s, MatVec(h, s));
    DotSymmetric(s, MatVec(h, s));
  }

  lemma ProductsAlong(u: Vector, r: Matrix, s: Vector, w: Vector)
    requires Square(r, |s|) && |u| == |w| == |s| && forall q :: 0 <= q < |s| ==> w[q] == Dot(r[q], u)
    ensures Dot(w, s) == Dot(u, Apply(r, s))
  {
    DotOfProducts(u, r, s, w, |s|);
  }

  // ----- the change of rank one that makes the update -----

  /** With w = y - alpha ll's and u = beta l's, the factor of rank one turns ll' into its BFGS update. */
  lemma FactorUpdate(r: Matrix, s: Vector, y: Vector, w: Vector, alpha: real, beta: real, den1: real, den2: real)
    requires Square(r, |s|) && |y| == |w| == |s|
    requires den1 == Dot(s, y) != 0.0 && den2 == Dot(Apply(r, s), Apply(r, s)) != 0.0
    requires Times(alpha, alpha) == den1 / den2 && beta == alpha / den1
    requires forall p :: 0 <= p < |s| ==> w[p] == y[p] - Times(alpha, Dot(r[p], Apply(r, s)))
    ensures Dot(s, MatVec(GramOf(r, |s|), s)) == den2
    ensures GramOf(RankOne(r, Scaled(beta, Apply(r, s)), w), |s|) == Update(GramOf(r, |s|), s, y)
  {
    GramTimes(r, s);
    var n, h, v, r1, r2 := |s|, GramOf(r, |s|), Apply(r, s), 1.0 / den1, 1.0 / den2;
    Ratios(alpha, alpha, beta, beta, den1, den2, r1, r1, r2);
    var b := RankOne(r, Scaled(beta, v), w);
    hide Dot, Times, UpdatedEntry;
    forall p, q | 0 <= p < n && 0 <= q < n ensures GramOf(b, n)[p][q] == Update(h, s, y)[p][q] {
      ProductOfSums(r[p], r[q], v, w[p], w[q], beta);
      EntryOfUpdate(Dot(r[p], r[q]), y[p], y[q], Dot(r[p], v), Dot(r[q], v), alpha, alpha, beta, r1, r2, w[p], w[q]);
      AsQuotients(Dot(r[p], r[q]), y[p], y[q], Dot(r[p], v), Dot(r[q], v), den1, den2, r1, r2);
    }
    forall p | 0 <= p < n ensures GramOf(b, n)[p] == Update(h, s, y)[p] {
    }
  }

  lemma AsQuotients(h: real, yp: real, yq: real, kp: real, kq: real, den1: real, den2: real, r1: real, r2: real)
    requires den1 != 0.0 && den2 != 0.0 && r1 == 1.0 / den1 && r2 == 1.0 / den2
    ensures h + Times(r1, Times(yp, yq)) - Times(r2, Times(kp, kq)) == UpdatedEntry(h, yp, yq, kp, kq, den1, den2)
  {
    Ratio(yp * yq, den1, r1);
    Ratio(kp * kq, den2, r2);
    assert Times(r1, Times(yp, yq)) == Times(yp * yq, r1) && Times(r2, Times(kp, kq)) == Times(kp * kq, r2);
  }

  /** The product of x + c u and z + d u for u = beta v. */
  lemma ProductOfSums(x: Vector, z: Vector, v: Vector, c: real, d: real, beta: real)
    requires |x| == |z| == |v|
    ensures Dot(Plus(x, Scaled(c, Scaled(beta, v))), Plus(z, Scaled(d, Scaled(beta, v)))) ==
            Dot(x, z) + Times(d, Times(beta, Dot(x, v))) + Times(c, Times(beta, Dot(z, v)))
            + Times(Times(c, d), Times(Times(beta, beta), Dot(v, v)))
  {
    hide Dot;
    var u := Scaled(beta, v);
    var cu, du := Scaled(c, u), Scaled(d, u);
    DotPlus(Plus(x, cu), z, du);
    DotSymmetric(Plus(x, cu), z);
    DotSymmetric(Plus(x, cu), du);
    DotPlus(z, x, cu);
    DotPlus(du, x, cu);
    DotSymmetric(z, x);
    DotSymmetric(du, x);
    DotScale(c, z, u);
    DotScale(d, x, u);
    DotScale(beta, z, v);
    DotScale(beta, x, v);
    DotScale(c, du, u);
    DotScale(d, u, u);
    DotScale(beta, u, v);
    DotScale(beta, v, v);
    Nested(c, d, beta, beta, Dot(v, v));
    TimesIs(d, beta, Dot(x, v));
    TimesIs(c, beta, Dot(z, v));
  }

  lemma TimesIs(a: real, b: real, x: real)
    ensures Times(a, Times(b, x)) == a * (b * x)
  {
  }

  lemma Nested(c: real, d: real, b: real, b': real, x: real)
    ensures c * (d * (b * (b' * x))) == Times(Times(c, d), Times(Times(b, b'), x))
  {
    assert c * (d * (b * (b' * x))) == (c * d) * ((b * b') * x);
  }

  /** How the scalars of the update depend on each other; primes mark second factors. */
  lemma Ratios(alpha: real, alpha': real, beta: real, beta': real, den1: real, den2: real, r1: real, r1': real,
               r2: real)
    requires alpha == alpha' && beta == beta' && r1 == r1' && den1 != 0.0 && den2 != 0.0
    requires Times(alpha, alpha') == den1 / den2 && beta == alpha / den1 && r1 == 1.0 / den1 && r2 == 1.0 / den2
    ensures Times(beta, alpha') == r2
    ensures Times(Times(beta, beta'), den2) == r1
    ensures Times(r1, alpha) == beta && Times(r1', alpha') == beta'
  {
    Inverse(den1, r1);
    Inverse(den2, r2);
    Ratio(alpha, den1, r1);
    Ratio(den1, den2, r2);
    hide Times;
    Commute(r1, alpha);
    // beta alpha' == (r1 alpha) alpha' == r1 (den1 r2) == r2
    Reassociate(r1, alpha, alpha');
    Reassociate(r1, den1, r2);
    Units(r2);
    // (beta beta') den2 == ((r1 r1') (den1 r2)) den2 == r1
    Regroup(r1, alpha, r1', alpha');
    Reassociate(r1, r1', Times(den1, r2));
    Reassociate(r1', den1, r2);
    Commute(r1, den1);
    Reassociate(r1, r2, den2);
    Commute(r2, den2);
    Units(r1);
  }

  lemma Inverse(d: real, r: real)
    requires d != 0.0 && r == 1.0 / d
    ensures Times(r, d) == 1.0 == Times(d, r)
  {
  }

  lemma Ratio(a: real, d: real, r: real)
    requires d != 0.0 && r == 1.0 / d
    ensures a / d == Times(a, r)
  {
  }

  /** The entry of the product that the change of rank one makes is that of the BFGS update. */
  lemma EntryOfUpdate(h: real, yp: real, yq: real, kp: real, kq: real, alpha: real, alpha': real, beta: real,
                      r1: real, r2: real, wp: real, wq: real)
    requires wp == yp - Times(alpha, kp) && wq == yq - Times(alpha', kq) && alpha == alpha'
    requires Times(beta, alpha') == r2 && Times(r1, alpha) == beta
    ensures h + Times(wq, Times(beta, kp)) + Times(wp, Times(beta, kq)) + Times(Times(wp, wq), r1) ==
            h + Times(r1, Times(yp, yq)) - Times(r2, Times(kp, kq))
  {
    var bk, bk' := Times(beta, kp), Times(beta, kq);
    hide Times;
    // wq (beta kp) == beta yq kp - r2 kp kq, and likewise for wp
    MinusTimes(yq, Times(alpha', kq), bk);
    Regroup(alpha', kq, beta, kp);
    MinusTimes(yp, Times(alpha, kp), bk');
    Regroup(alpha, kp, beta, kq);
    Commute(alpha', beta);
    Commute(alpha, beta);
    Commute(kq, kp);
    // wp wq r1
    ProductOfDifferences(yp, Times(alpha, kp), yq, Times(alpha', kq));
    Fourfold(Times(yp, yq), Times(yp, Times(alpha', kq)), Times(Times(alpha, kp), yq),
             Times(Times(alpha, kp), Times(alpha', kq)), r1);
    Commute(Times(yp, yq), r1);
    Swap(yp, alpha', kq, r1, beta);
    Swap'(alpha, kp, yq, r1, beta);
    Commute(Times(Times(alpha, kp), Times(alpha', kq)), r1);
    Regroup(alpha, kp, alpha', kq);
    Reassociate(r1, Times(alpha, alpha'), Times(kp, kq));
    Reassociate(r1, alpha, alpha');
  }

  lemma MinusTimes(a: real, b: real, c: real)
    ensures Times(a - b, c) == Times(a, c) - Times(b, c)
  {
    assert (a - b) * c == a * c - b * c;
  }

  lemma ProductOfDifferences(a: real, b: real, c: real, d: real)
    ensures Times(a - b, c - d) == Times(a, c) - Times(a, d) - Times(b, c) + Times(b, d)
  {
    assert (a - b) * (c - d) == a * (c - d) - b * (c - d);
  }

  lemma Fourfold(a: real, b: real, c: real, d: real, x: real)
    ensures Times(a - b - c + d, x) == Times(a, x) - Times(b, x) - Times(c, x) + Times(d, x)
  {
    assert (a - b - c + d) * x == a * x - b * x - c * x + d * x;
  }

  lemma Swap(y: real, a: real, k: real, r: real, b: real)
    requires Times(r, a) == b
    ensures Times(Times(y, Times(a, k)), r) == Times(y, Times(b, k))
  {
    assert (y * (a * k)) * r == y * ((r * a) * k);
  }

  lemma Swap'(a: real, k: real, y: real, r: real, b: real)
    requires Times(r, a) == b
    ensures Times(Times(Times(a, k), y), r) == Times(y, Times(b, k))
  {
    assert ((a * k) * y) * r == y * ((r * a) * k);
  }

  // ----- the factor in memory -----

  /** Row i of the lower triangle, filled up with zeros: column i of l'. */
  ghost function LowRow(a: array2<real>, i: int): (v: Vector)
    requires 0 <= i < a.Length0 == a.Length1
    reads a
    ensures |v| == a.Length0 && forall j :: 0 <= j < |v| ==> v[j] == if j <= i then a[i, j] else 0.0
  {
    seq(a.Length0, j requires 0 <= j < a.Length1 reads a => if j <= i then a[i, j] else 0.0)
  }

  /** The columns of l', for the l in the lower triangle. */
  ghost function Factor(a: array2<real>): (m: Matrix)
    requires a.Length0 == a.Length1
    reads a
    ensures Square(m, a.Length0) && forall i :: 0 <= i < a.Length0 ==> m[i] == LowRow(a, i)
  {
    seq(a.Length0, i requires 0 <= i < a.Length0 reads a => LowRow(a, i))
  }

  lemma {:induction false} ZeroTail(u: Vector, v: Vector, k: nat, n: nat)
    requires k <= n <= |u| == |v| && forall j :: k <= j < n ==> u[j] == 0.0
    ensures DotTo(u, v, n) == DotTo(u, v, k)
  {
    if k < n {
      ZeroTail(u, v, k, n - 1);
      TimesZero(v[n - 1]);
    }
  }

  /** mvmltl: y = l x. */
  method Mvmltl(a: array2<real>, x: array<real>, y: array<real>)
    requires a.Length0 == a.Length1 == x.Length == y.Length && x != y
    modifies y
    ensures forall i :: 0 <= i < y.Length ==> y[i] == Dot(Factor(a)[i], x[..])
  {
    hide Dot;
    var i := 0;
    while i < y.Length
      invariant 0 <= i <= y.Length
      invariant forall k :: 0 <= k < i ==> y[k] == Dot(Factor(a)[k], x[..])
    {
      var sum := LowProduct(a, i, x);
      y[i] := sum;
      i := i + 1;
    }
  }

  /** The product of row i of l with x. */
  method LowProduct(a: array2<real>, i: nat, x: array<real>) returns (sum: real)
    requires i < a.Length0 == a.Length1 == x.Length
    ensures sum == Dot(Factor(a)[i], x[..])
  {
    ghost var l := LowRow(a, i);
    sum := 0.0;
    var j := 0;
    while j <= i
      invariant 0 <= j <= i + 1 && sum == DotTo(l, x[..], j)
    {
      sum := sum + a[i, j] * x[j];
      j := j + 1;
    }
    ZeroTail(l, x[..], i + 1, x.Length);
  }

  /** The first k columns do not reach row i. */
  lemma {:induction false} NothingBefore(r: Matrix, x: Vector, i: nat, k: nat)
    requires Square(r, |x|) && k <= |x| && i < |x| && forall q :: 0 <= q < k ==> r[q][i] == 0.0
    ensures Combine(r, x, k)[i] == 0.0
  {
    if k > 0 {
      NothingBefore(r, x, i, k - 1);
      hide Times;
      ScaledAt(x[k - 1], r[k - 1], i);
      TimesZero(x[k - 1]);
    }
  }

  lemma OneMoreColumn(r: Matrix, x: Vector, i: nat, k: nat)
    requires Square(r, |x|) && 1 <= k <= |x| && i < |x|
    ensures Combine(r, x, k)[i] == Combine(r, x, k - 1)[i] + Times(x[k - 1], r[k - 1][i])
  {
    hide Times;
    ScaledAt(x[k - 1], r[k - 1], i);
  }

  /** mvmltu: y = l'x. */
  method Mvmltu(a: array2<real>, x: array<real>, y: array<real>)
    requires a.Length0 == a.Length1 == x.Length == y.Length && x != y
    modifies y
    ensures y[..] == Apply(Factor(a), x[..])
  {
    hide Combine;
    var i := 0;
    while i < y.Length
      invariant 0 <= i <= y.Length
      invariant forall k :: 0 <= k < i ==> y[k] == Apply(Factor(a), x[..])[k]
    {
      var sum := HighProduct(a, i, x);
      y[i] := sum;
      i := i + 1;
    }
  }

  /** The product of column i of l, from the diagonal down, with x. */
  method HighProduct(a: array2<real>, i: nat, x: array<real>) returns (sum: real)
    requires i < a.Length0 == a.Length1 == x.Length
    ensures sum == Apply(Factor(a), x[..])[i]
  {
    sum := 0.0;
    NothingBefore(Factor(a), x[..], i, i);
    hide Combine, Factor, Square;
    var k := i;
    while k < x.Length
      invariant i <= k <= x.Length && sum == Combine(Factor(a), x[..], k)[i]
    {
      NextBelow(a, i, x, k);
      sum := sum + a[k, i] * x[k];
      k := k + 1;
    }
  }

  lemma NextBelow(a: array2<real>, i: nat, x: array<real>, k: nat)
    requires i <= k < a.Length0 == a.Length1 == x.Length
    ensures Combine(Factor(a), x[..], k + 1)[i] == Combine(Factor(a), x[..], k)[i] + a[k, i] * x[k]
  {
    hide Combine, LowRow;
    OneMoreColumn(Factor(a), x[..], i, k + 1);
    Commute(a[k, i], x[k]);
  }

  /** Moves l into the upper triangle, as l', and zeros below it. */
  method Raise(a: array2<real>)
    requires a.Length0 == a.Length1
    modifies a
    ensures Hessenberg(a, 0, 0) && Cols(a) == old(Factor(a))
  {
    var n := a.Length0;
    var i := 1;
    while i < n
      invariant 1 <= i && (i <= n || n == 0)
      invariant forall r, p :: 0 <= p < r < n && r < i ==> a[p, r] == old(a[r, p]) && a[r, p] == 0.0
      invariant forall r, p :: 0 <= p <= r < n && (r >= i || p == r) ==> a[r, p] == old(a[r, p])
    {
      var j := 0;
      while j < i
        invariant 0 <= j <= i
        invariant forall r, p :: 0 <= p < r < n && (r < i || (r == i && p < j)) ==>
          a[p, r] == old(a[r, p]) && a[r, p] == 0.0
        invariant forall r, p :: 0 <= p <= r < n && (r > i || (r == i && p >= j) || p == r) ==> a[r, p] == old(a[r, p])
      {
        a[j, i] := a[i, j];
        a[i, j] := 0.0;
        j := j + 1;
      }
      i := i + 1;
    }
    forall p | 0 <= p < n ensures Cols(a)[p] == old(Factor(a))[p] {
      assert Col(a, p) == old(LowRow(a, p));
    }
  }

  /** Copies the upper triangle to the lower one. */
  method CopyBack(a: array2<real>)
    requires Hessenberg(a, 0, 0)
    modifies a
    ensures Factor(a) == old(Cols(a))
  {
    var n := a.Length0;
    var i := 1;
    while i < n
      invariant 1 <= i && (i <= n || n == 0)
      invariant forall r, p :: 0 <= p < r < i && r < n ==> a[r, p] == old(a[p, r])
      invariant forall r, p :: 0 <= p <= r < n ==> a[p, r] == old(a[p, r])
    {
      var j := 0;
      while j < i
        invariant 0 <= j <= i
        invariant forall r, p :: 0 <= p < r < n && (r < i || (r == i && p < j)) ==> a[r, p] == old(a[p, r])
        invariant forall r, p :: 0 <= p <= r < n ==> a[p, r] == old(a[p, r])
      {
        a[i, j] := a[j, i];
        j := j + 1;
      }
      i := i + 1;
    }
    forall p | 0 <= p < n ensures Factor(a)[p] == old(Cols(a))[p] {
      assert LowRow(a, p) == old(Col(a, p));
    }
  }

  // ----- the update -----

  lemma SameGramSameProduct(r: Matrix, b: Matrix, n: nat)
    requires SameGram(r, b, n)
    ensures GramOf(r, n) == GramOf(b, n)
  {
    hide Dot;
    forall p | 0 <= p < n ensures GramOf(r, n)[p] == GramOf(b, n)[p] {
      forall q | 0 <= q < n ensures GramOf(r, n)[p][q] == GramOf(b, n)[p][q] {
      }
    }
  }

  /** w := y - alpha w. */
  method Residual(w: array<real>, y: array<real>, alpha: real)
    requires w != y && w.Length == y.Length
    modifies w
    ensures forall i :: 0 <= i < w.Length ==> w[i] == y[i] - Times(alpha, old(w[i]))
  {
    var i := 0;
    while i < w.Length
      invariant 0 <= i <= w.Length
      invariant forall k :: 0 <= k < i ==> w[k] == y[k] - Times(alpha, old(w[k]))
      invariant forall k :: i <= k < w.Length ==> w[k] == old(w[k])
    {
      w[i] := y[i] - alpha * w[i];
      i := i + 1;
    }
  }

  /** u := c u. */
  method Scale(u: array<real>, c: real)
    modifies u
    ensures u[..] == Scaled(c, old(u[..]))
  {
    ghost var v := u[..];
    var i := 0;
    while i < u.Length
      invariant 0 <= i <= u.Length
      invariant forall k :: 0 <= k < i ==> u[k] == Scaled(c, v)[k]
      invariant forall k :: i <= k < u.Length ==> u[k] == v[k]
    {
      u[i] := c * u[i];
      i := i + 1;
    }
  }

  /** The update proper: u holds l's and w holds ll's. */
  method Transform(a: array2<real>, y: array<real>, u: array<real>, w: array<real>, alpha: real, den1: real,
                   root: real -> real, ghost s: Vector, ghost den2: real)
    requires IsRoot(root) && 1 <= a.Length0 == a.Length1 == y.Length == u.Length == w.Length == |s|
    requires u != w && u != y && w != y
    requires u[..] == Apply(Factor(a), s)
    requires forall i :: 0 <= i < w.Length ==> w[i] == Dot(Factor(a)[i], u[..])
    requires den1 == Dot(s, y[..]) != 0.0 && den2 == Dot(u[..], u[..]) != 0.0 && Times(alpha, alpha) == den1 / den2
    modifies a, u, w
    ensures Dot(s, MatVec(GramOf(old(Factor(a)), |s|), s)) == den2
    ensures GramOf(Factor(a), |s|) == Update(GramOf(old(Factor(a)), |s|), s, y[..])
  {
    hide Dot, Times, Combine;
    ghost var r := Factor(a);
    Residual(w, y, alpha);
    var beta := alpha / den1;
    Scale(u, beta);
    FactorUpdate(r, s, y[..], w[..], alpha, beta, den1, den2);
    Raise(a);
    ghost var b := RankOne(r, u[..], w[..]);
    Qrupdt(a, u, w, root);
    SameGramSameProduct(Cols(a), b, |s|);
    CopyBack(a);
  }

  /** Rescales the factor and l's by alpha. */
  method RescaleFactor(a: array2<real>, u: array<real>, alpha: real)
    requires a.Length0 == a.Length1 == u.Length
    modifies a, u
    ensures forall i :: 0 <= i < u.Length ==> Factor(a)[i] == Scaled(alpha, old(Factor(a)[i]))
    ensures u[..] == Scaled(alpha, old(u[..]))
  {
    ghost var v, r := u[..], Factor(a);
    var n := u.Length;
    var j := 0;
    while j < n
      invariant 0 <= j <= n
      invariant forall k :: 0 <= k < j ==> u[k] == Scaled(alpha, v)[k]
      invariant forall k :: j <= k < n ==> u[k] == v[k]
      invariant forall i, k :: 0 <= k <= i < n ==>
        a[i, k] == if k < j then Scaled(alpha, r[i])[k] else old(a[i, k])
    {
      u[j] := alpha * u[j];
      RescaleColumn(a, j, alpha);
      j := j + 1;
    }
    hide Times;
    forall i | 0 <= i < n ensures Factor(a)[i] == Scaled(alpha, r[i]) {
      ZeroScaled(alpha);
      assert forall k :: 0 <= k < n ==> LowRow(a, i)[k] == Scaled(alpha, r[i])[k];
    }
    assert u[..] == Scaled(alpha, v);
  }

  lemma ZeroScaled(alpha: real)
    ensures alpha * 0.0 == 0.0
  {
  }

  /** Rescales column j of the lower triangle. */
  method RescaleColumn(a: array2<real>, j: nat, alpha: real)
    requires j < a.Length0 == a.Length1
    modifies a
    ensures forall i :: j <= i < a.Length0 ==> a[i, j] == alpha * old(a[i, j])
    ensures forall i, k :: 0 <= i < a.Length0 && 0 <= k < a.Length1 && (k != j || i < j) ==> a[i, k] == old(a[i, k])
  {
    var i := j;
    while i < a.Length0
      invariant j <= i <= a.Length0
      invariant forall r :: j <= r < i ==> a[r, j] == alpha * old(a[r, j])
      invariant forall r, k :: 0 <= r < a.Length0 && 0 <= k < a.Length1 && (k != j || r < j || r >= i) ==>
        a[r, k] == old(a[r, k])
    {
      a[i, j] := a[i, j] * alpha;
      i := i + 1;
    }
  }

  /** Rescaling the factor by alpha rescales l's by alpha and ll' by its square. */
  lemma ScaledFactor(r: Matrix, r': Matrix, s: Vector, alpha: real)
    requires Square(r, |s|) && Square(r', |s|) && forall i :: 0 <= i < |s| ==> r'[i] == Scaled(alpha, r[i])
    ensures Apply(r', s) == Scaled(alpha, Apply(r, s))
    ensures GramOf(r', |s|) == ScaledMatrix(Times(alpha, alpha), GramOf(r, |s|), |s|)
  {
    hide Dot, Times, Combine, Scaled;
    ScaledCombine(r, r', s, alpha, |s|);
    var n, square := |s|, Times(alpha, alpha);
    forall p | 0 <= p < n ensures GramOf(r', n)[p] == Scaled(square, GramOf(r, n)[p]) {
      forall q | 0 <= q < n ensures GramOf(r', n)[p][q] == Scaled(square, GramOf(r, n)[p])[q] {
        DotOfScaled(alpha, r[p], r[q]);
        ScaledAt(square, GramOf(r, n)[p], q);
      }
    }
  }

  lemma DotOfScaled(alpha: real, u: Vector, v: Vector)
    requires |u| == |v|
    ensures Dot(Scaled(alpha, u), Scaled(alpha, v)) == Times(Times(alpha, alpha), Dot(u, v))
  {
    hide Dot, Times;
    DotScale(alpha, u, Scaled(alpha, v));
    DotScale(alpha, u, v);
    Twice(alpha, alpha, Dot(u, v));
  }

  lemma Twice(a: real, b: real, x: real)
    ensures a * (b * x) == Times(Times(a, b), x)
  {
    assert a * (b * x) == (a * b) * x;
  }

  lemma {:induction false} ScaledCombine(r: Matrix, r': Matrix, s: Vector, alpha: real, k: nat)
    requires Square(r, |s|) && Square(r', |s|) && k <= |s|
    requires forall i :: 0 <= i < |s| ==> r'[i] == Scaled(alpha, r[i])
    ensures Combine(r', s, k) == Scaled(alpha, Combine(r, s, k))
  {
    hide Times;
    if k == 0 {
      ZeroScaled(alpha);
      assert Zero(|s|) == Scaled(alpha, Zero(|s|));
    } else {
      ScaledCombine(r, r', s, alpha, k - 1);
      ScaledSum(alpha, Combine(r, s, k - 1), r[k - 1], s[k - 1]);
    }
  }

  lemma ScaledSum(alpha: real, c: Vector, v: Vector, x: real)
    requires |c| == |v|
    ensures Plus(Scaled(alpha, c), Scaled(x, Scaled(alpha, v))) == Scaled(alpha, Plus(c, Scaled(x, v)))
  {
    forall i | 0 <= i < |c|
      ensures Plus(Scaled(alpha, c), Scaled(x, Scaled(alpha, v)))[i] == Scaled(alpha, Plus(c, Scaled(x, v)))[i]
    {
      assert alpha * (c[i] + x * v[i]) == alpha * c[i] + x * (alpha * v[i]);
    }
  }

  /** The step that the arguments of secfac and secunf describe. */
  ghost function StepOf(x: Vector, g: Vector, xpls: Vector, gpls: Vector, epsm: real, itncnt: int, rnf: real,
                        iagflg: int, root: real -> real): (st: Step)
    requires |x| == |g| == |xpls| == |gpls|
    ensures st.Sized(|x|)
  {
    var s, y := Minus(xpls, x), Minus(gpls, g);
    Step(s, y, g, gpls, root(epsm) * root(Dot(s, s)) * root(Dot(y, y)),
         if iagflg == 0 then root(rnf) else rnf, itncnt == 1)
  }

  /** d := v - u. */
  method Difference(d: array<real>, v: Vector, u: Vector)
    requires d.Length == |v| == |u|
    modifies d
    ensures d[..] == Minus(v, u)
  {
    var i := 0;
    while i < d.Length
      invariant 0 <= i <= d.Length && forall k :: 0 <= k < i ==> d[k] == Minus(v, u)[k]
    {
      d[i] := v[i] - u[i];
      i := i + 1;
    }
  }

  /** The loop that decides whether the update is skipped. */
  method IsClose(w: array<real>, y: array<real>, g: Vector, gpls: Vector, reltol: real, ghost st: Step)
    returns (skpupd: bool)
    requires st.Sized(w.Length) && y[..] == st.y && g == st.g && gpls == st.gpls && reltol == st.reltol
    ensures skpupd <==> Close(st, w[..])
  {
    skpupd := true;
    var i := 0;
    while i < w.Length
      invariant 0 <= i <= w.Length && skpupd
      invariant forall k :: 0 <= k < i ==> Abs(st.y[k] - w[k]) < Tolerance(st, k)
    {
      assert y[i] == y[..][i];
      skpupd := Abs(y[i] - w[i]) < reltol * Max(Abs(g[i]), Abs(gpls[i]));
      if !skpupd {
        assert w[..][i] == w[i];
        return;
      }
      i := i + 1;
    }
  }

  /** The state before the update: u holds l's, and alpha is the root of y's / s'll's. */
  ghost predicate Ready(a: array2<real>, u: array<real>, s: Vector, h: Matrix, c: real, alpha: real,
                        den1: real, den2: real)
    reads a, u
  {
    && a.Length0 == a.Length1 == u.Length == |s| == |h| && Square(h, |s|)
    && u[..] == Apply(Factor(a), s)
    && GramOf(Factor(a), |s|) == ScaledMatrix(c, h, |s|)
    && den2 == Dot(u[..], u[..])
    && (den1 != 0.0 && den2 != 0.0 ==> Times(alpha, alpha) == den1 / den2)
  }

  /** Before the first update the factor is rescaled. */
  method FirstRescaling(a: array2<real>, u: array<real>, alpha0: real, den1: real, den2: real, first: bool,
                        ghost st: Step, ghost h: Matrix)
    returns (alpha: real, den2': real)
    requires st.Sized(|h|) && st.first == first && den1 == Dot(st.s, st.y)
    requires Ready(a, u, st.s, h, 1.0, alpha0, den1, den2) && h == GramOf(Factor(a), |h|)
    requires den2 != 0.0 ==> Times(alpha0, alpha0) == den1 / den2
    requires first ==> den2 != 0.0
    modifies a, u
    ensures Ready(a, u, st.s, h, Gamma(st, den2), alpha, den1, den2')
    ensures den2' == if first then den1 else den2
  {
    hide Dot, Times, Combine;
    alpha, den2' := alpha0, den2;
    if first {
      ghost var r := Factor(a);
      RescaleFactor(a, u, alpha0);
      ScaledFactor(r, Factor(a), st.s, alpha0);
      GramTimes(r, st.s);
      GramTimes(Factor(a), st.s);
      Rescaled(st, h);
      den2' := den1;
      alpha := 1.0;
      UnitRatio(den1);
    }
  }

  lemma UnitRatio(d: real)
    ensures d != 0.0 ==> Times(1.0, 1.0) == d / d
  {
  }

  /**
   * What an update has to deliver: its decision, and the Hessian ll' for the factor l in a,
   * given the Hessian h before.
   */
  ghost predicate Delivers(a: array2<real>, st: Step, h: Matrix, outcome: Outcome)
    reads a
  {
    && a.Length0 == a.Length1 == |h| && Square(h, |h|) && st.Sized(|h|)
    && outcome == Decide(st, MatVec(h, st.s), Dot(st.s, MatVec(h, st.s)))
    && (outcome != Undefined ==> GramOf(Factor(a), |h|) == Next(st, h))
  }

  /** secfac after the curvature test. */
  method UpdateFactor(a: array2<real>, s: array<real>, y: array<real>, u: array<real>, w: array<real>, g: Vector,
                      gpls: Vector, reltol: real, first: bool, root: real -> real, den1: real, ghost st: Step)
    returns (outcome: Outcome)
    requires IsRoot(root) && 1 <= a.Length0 == a.Length1 == s.Length == y.Length == u.Length == w.Length
    requires s != u && s != w && y != u && y != w && u != w
    requires st.Sized(s.Length) && s[..] == st.s && y[..] == st.y && g == st.g && gpls == st.gpls
    requires reltol == st.reltol && first == st.first && den1 == Dot(st.s, st.y) >= st.flat && den1 >= 0.0
    modifies a, u, w
    ensures Delivers(a, st, GramOf(old(Factor(a)), s.Length), outcome)
  {
    hide Dot, Times, Combine, Close, Ready, Update;
    ghost var h := GramOf(Factor(a), s.Length);
    Mvmltu(a, s, u);
    GramTimes(Factor(a), st.s);
    var den2 := Ddot(u, u, 0);
    var alpha := 1.0; // stands for no number at all if den2 is zero
    if den2 == 0.0 {
      if first {
        return Undefined;
      }
    } else {
      RootOfRatio(u[..], den1, den2, root);
      alpha := root(den1 / den2);
    }
    StartsReady(a, u, st.s, h, alpha, den1, den2);
    ghost var c := Gamma(st, den2);
    alpha, den2 := FirstRescaling(a, u, alpha, den1, den2, first, st, h);
    Rescaled(st, h);
    outcome := Finish(a, y, u, w, g, gpls, reltol, root, alpha, den1, den2, st, h, c);
  }

  lemma StartsReady(a: array2<real>, u: array<real>, s: Vector, h: Matrix, alpha: real, den1: real, den2: real)
    requires a.Length0 == a.Length1 == u.Length == |s| == |h| && h == GramOf(Factor(a), |s|)
    requires u[..] == Apply(Factor(a), s) && den2 == Dot(u[..], u[..])
    requires den2 != 0.0 ==> Times(alpha, alpha) == den1 / den2
    ensures Ready(a, u, s, h, 1.0, alpha, den1, den2)
  {
    forall p | 0 <= p < |s| ensures ScaledMatrix(1.0, h, |s|)[p] == h[p] {
    }
  }

  lemma RootOfRatio(u: Vector, den1: real, den2: real, root: real -> real)
    requires IsRoot(root) && den1 >= 0.0 && den2 == Dot(u, u) != 0.0
    ensures Times(root(den1 / den2), root(den1 / den2)) == den1 / den2
  {
    SelfDotNotNegative(u, |u|);
    RatioNotNegative(den1, den2);
  }

  lemma RatioNotNegative(a: real, b: real)
    requires a >= 0.0 && b > 0.0
    ensures a / b >= 0.0
  {
  }

  /** secfac from the product with l on. */
  method Finish(a: array2<real>, y: array<real>, u: array<real>, w: array<real>, g: Vector, gpls: Vector, reltol: real,
                root: real -> real, alpha: real, den1: real, den2: real, ghost st: Step, ghost h: Matrix, ghost c: real)
    returns (outcome: Outcome)
    requires IsRoot(root) && 1 <= y.Length == u.Length == w.Length && u != w && u != y && w != y
    requires st.Sized(y.Length) && y[..] == st.y && g == st.g && gpls == st.gpls && reltol == st.reltol
    requires den1 == Dot(st.s, st.y) && Ready(a, u, st.s, h, c, alpha, den1, den2)
    modifies a, u, w
    ensures a.Length0 == a.Length1 == |h| && Square(h, |h|) && |h| == |st.s|
    ensures outcome == if Close(st, MatVec(ScaledMatrix(c, h, |h|), st.s)) then Agrees
      else if den1 == 0.0 || den2 == 0.0 then Undefined else Updated
    ensures outcome == Agrees ==> GramOf(Factor(a), |h|) == ScaledMatrix(c, h, |h|)
    ensures Dot(st.s, MatVec(ScaledMatrix(c, h, |h|), st.s)) == den2
    ensures outcome == Updated ==> GramOf(Factor(a), |h|) == Update(ScaledMatrix(c, h, |h|), st.s, st.y)
  {
    hide Dot, Times, Combine, Close;
    GramTimes(Factor(a), st.s);
    Mvmltl(a, u, w);
    assert w[..] == MatVec(ScaledMatrix(c, h, |h|), st.s);
    var skpupd := IsClose(w, y, g, gpls, reltol, st);
    if skpupd {
      return Agrees;
    }
    if den1 == 0.0 || den2 == 0.0 {
      return Undefined;
    }
    Transform(a, y, u, w, alpha, den1, root, st.s, den2);
    return Updated;
  }

  /** secfac. The factor l in the lower triangle of a becomes that of the Hessian after the step. */
  method Secfac(a: array2<real>, x: Vector, g: Vector, xpls: Vector, gpls: Vector, epsm: real, itncnt: int, rnf: real,
                iagflg: int, s: array<real>, y: array<real>, u: array<real>, w: array<real>, root: real -> real)
    returns (outcome: Outcome, noupdt: bool)
    requires IsRoot(root) && 1 <= a.Length0 == a.Length1 == s.Length == y.Length == u.Length == w.Length
    requires |x| == |g| == |xpls| == |gpls| == a.Length0 && epsm >= 0.0 && rnf >= 0.0
    requires s != y && s != u && s != w && y != u && y != w && u != w
    modifies a, s, y, u, w
    ensures Delivers(a, StepOf(x, g, xpls, gpls, epsm, itncnt, rnf, iagflg, root), GramOf(old(Factor(a)), |x|), outcome)
    ensures outcome != Undefined ==> (noupdt <==> itncnt == 1 && outcome == Flat)
    ensures outcome == Updated ==> MatVec(GramOf(Factor(a), |x|), Minus(xpls, x)) == Minus(gpls, g)
  {
    hide Dot, Times, Combine, Close, Update, MatVec, GramOf;
    ghost var st := StepOf(x, g, xpls, gpls, epsm, itncnt, rnf, iagflg, root);
    noupdt := itncnt == 1;
    Difference(s, xpls, x);
    Difference(y, gpls, g);
    var den1 := Ddot(s, y, 0);
    var ss := Ddot(s, s, 0);
    var yy := Ddot(y, y, 0);
    var snorm2, ynrm2 := root(ss), root(yy);
    if den1 < root(epsm) * snorm2 * ynrm2 {
      return Flat, noupdt;
    }
    FlatNotNegative(st, epsm, root);
    var reltol := if iagflg == 0 then root(rnf) else rnf;
    ghost var h := GramOf(Factor(a), |x|);
    outcome := UpdateFactor(a, s, y, u, w, g, gpls, reltol, noupdt, root, den1, st);
    noupdt := false;
    if outcome == Updated {
      NextIsSecant(st, h);
    }
  }

  lemma FlatNotNegative(st: Step, epsm: real, root: real -> real)
    requires IsRoot(root) && epsm >= 0.0 && |st.s| == |st.y|
    requires st.flat == root(epsm) * root(Dot(st.s, st.s)) * root(Dot(st.y, st.y))
    ensures st.flat >= 0.0
  {
    SelfDotNotNegative(st.s, |st.s|);
    SelfDotNotNegative(st.y, |st.y|);
    ProductNotNegative(root(epsm), root(Dot(st.s, st.s)), root(Dot(st.y, st.y)));
  }

  lemma ProductNotNegative(a: real, b: real, c: real)
    requires a >= 0.0 && b >= 0.0 && c >= 0.0
    ensures a * b * c >= 0.0
  {
    var ab := a * b;
    assert ab >= 0.0;
  }

  ghost predicate IsZero(u: Vector) {
    forall i :: 0 <= i < |u| ==> u[i] == 0.0
  }

  /** A step that passes the curvature test divides by zero in y's exactly if it is no step or changes no gradient. */
  lemma NoCurvature(x: Vector, g: Vector, xpls: Vector, gpls: Vector, epsm: real, itncnt: int, rnf: real, iagflg: int,
                    root: real -> real)
    requires IsRoot(root) && epsm > 0.0 && |x| == |g| == |xpls| == |gpls|
    ensures var st := StepOf(x, g, xpls, gpls, epsm, itncnt, rnf, iagflg, root);
      Dot(st.s, st.y) >= st.flat ==> (Dot(st.s, st.y) == 0.0 <==> IsZero(st.s) || IsZero(st.y))
  {
    var st := StepOf(x, g, xpls, gpls, epsm, itncnt, rnf, iagflg, root);
    var ss, yy := Dot(st.s, st.s), Dot(st.y, st.y);
    SelfDotNotNegative(st.s, |st.s|);
    SelfDotNotNegative(st.y, |st.y|);
    if IsZero(st.s) {
      assert forall k :: 0 <= k < |st.s| ==> Zero(|st.y|)[k] == st.s[k];
      assert st.s == Zero(|st.y|);
      DotZero(st.y);
      DotSymmetric(st.s, st.y);
    }
    if IsZero(st.y) {
      assert forall k :: 0 <= k < |st.y| ==> Zero(|st.s|)[k] == st.y[k];
      assert st.y == Zero(|st.s|);
      DotZero(st.s);
    }
    if !IsZero(st.s) && !IsZero(st.y) {
      RootPositive(epsm, root);
      RootPositive(ss, root);
      RootPositive(yy, root);
      ProductPositive(root(epsm), root(ss), root(yy));
    }
  }

  // ----- when an update divides by zero -----

  /** Column q of r is zero below entry q, and the diagonal has no zero: r is the transpose of a regular l. */
  ghost predicate IsRegular(r: Matrix, n: nat) {
    && Square(r, n)
    && (forall q, i :: 0 <= q < i < n ==> r[q][i] == 0.0)
    && (forall i :: 0 <= i < n ==> r[i][i] != 0.0)
  }

  lemma FactorIsRegular(a: array2<real>)
    requires a.Length0 == a.Length1
    ensures IsRegular(Factor(a), a.Length0) <==> forall i :: 0 <= i < a.Length0 ==> a[i, i] != 0.0
  {
    assert forall i :: 0 <= i < a.Length0 ==> Factor(a)[i][i] == a[i, i];
  }

  /** Entry i of l's, if s is zero behind i. */
  lemma {:induction false} LastEntry(r: Matrix, s: Vector, i: nat, k: nat)
    requires IsRegular(r, |s|) && i < k <= |s| && forall j :: i < j < |s| ==> s[j] == 0.0
    ensures Combine(r, s, k)[i] == Times(s[i], r[i][i])
  {
    hide Combine, Times;
    OneMoreColumn(r, s, i, k);
    if k == i + 1 {
      NothingBefore(r, s, i, i);
    } else {
      LastEntry(r, s, i, k - 1);
      TimesZero(r[k - 1][i]);
    }
  }

  lemma OnlyZero(x: real, y: real)
    requires Times(x, y) == 0.0 && y != 0.0
    ensures x == 0.0
  {
  }

  /** Back substitution: from entry i on, s is zero. */
  lemma {:induction false} BackSubstitution(r: Matrix, s: Vector, i: nat)
    requires IsRegular(r, |s|) && i <= |s| && IsZero(Apply(r, s))
    ensures forall j :: i <= j < |s| ==> s[j] == 0.0
    decreases |s| - i
  {
    hide Combine, Times;
    if i < |s| {
      BackSubstitution(r, s, i + 1);
      LastEntry(r, s, i, |s|);
      OnlyZero(s[i], r[i][i]);
    }
  }

  /** For a regular factor s'll's is zero exactly if s is. */
  lemma RegularFactor(r: Matrix, s: Vector)
    requires IsRegular(r, |s|)
    ensures Dot(s, MatVec(GramOf(r, |s|), s)) == 0.0 <==> IsZero(s)
  {
    hide Combine, Times, MatVec, GramOf;
    GramTimes(r, s);
    SelfDotNotNegative(Apply(r, s), |s|);
    if IsZero(s) {
      forall i | 0 <= i < |s| ensures Apply(r, s)[i] == 0.0 {
        LastEntry(r, s, i, |s|);
        TimesZero(r[i][i]);
      }
    } else if IsZero(Apply(r, s)) {
      BackSubstitution(r, s, 0);
    }
  }

  /**
   * With a regular factor an update divides by zero exactly if the step is zero before the first
   * update, or if step or gradient change is zero and some gradient entry is not yet close.
   */
  lemma UndefinedExactly(r: Matrix, x: Vector, g: Vector, xpls: Vector, gpls: Vector, epsm: real, itncnt: int,
                         rnf: real, iagflg: int, root: real -> real)
    requires IsRoot(root) && epsm > 0.0 && |x| == |g| == |xpls| == |gpls| && IsRegular(r, |x|)
    ensures var st := StepOf(x, g, xpls, gpls, epsm, itncnt, rnf, iagflg, root);
      var t := MatVec(GramOf(r, |x|), st.s);
      Decide(st, t, Dot(st.s, t)) == Undefined <==>
        (itncnt == 1 && xpls == x) ||
        ((xpls == x || gpls == g) && !Close(st, Scaled(Gamma(st, Dot(st.s, t)), t)))
  {
    hide Dot, Times, MatVec, GramOf, Close, IsRegular;
    var st := StepOf(x, g, xpls, gpls, epsm, itncnt, rnf, iagflg, root);
    RegularFactor(r, st.s);
    NoCurvature(x, g, xpls, gpls, epsm, itncnt, rnf, iagflg, root);
    NoDifference(xpls, x);
    NoDifference(gpls, g);
    if IsZero(st.s) || IsZero(st.y) {
      ZeroPassesTest(st, epsm, root);
    }
  }

  lemma NoDifference(u: Vector, v: Vector)
    requires |u| == |v|
    ensures IsZero(Minus(u, v)) <==> u == v
  {
  }

  /** A zero step or gradient change passes the curvature test. */
  lemma ZeroPassesTest(st: Step, epsm: real, root: real -> real)
    requires IsRoot(root) && epsm >= 0.0 && |st.s| == |st.y| && (IsZero(st.s) || IsZero(st.y))
    requires st.flat == root(epsm) * root(Dot(st.s, st.s)) * root(Dot(st.y, st.y))
    ensures Dot(st.s, st.y) == 0.0 == st.flat
  {
    SelfDotNotNegative(st.s, |st.s|);
    SelfDotNotNegative(st.y, |st.y|);
    RootOfZero(root);
    if IsZero(st.s) {
      ZeroDot(st.s, st.y);
    } else {
      ZeroDot(st.y, st.s);
      DotSymmetric(st.s, st.y);
    }
  }

  lemma RootOfZero(root: real -> real)
    requires IsRoot(root)
    ensures root(0.0) == 0.0
  {
    SquarePositive(root(0.0), root(0.0));
  }

  lemma ZeroDot(u: Vector, v: Vector)
    requires |u| == |v| && IsZero(u)
    ensures Dot(u, v) == 0.0
  {
    assert u == Zero(|v|);
    DotZero(v);
    DotSymmetric(u, v);
  }

  lemma RootPositive(v: real, root: real -> real)
    requires IsRoot(root) && v > 0.0
    ensures root(v) > 0.0
  {
    var r := root(v);
    hide Times;
    if r == 0.0 {
      TimesZero(r);
    }
  }

  lemma ProductPositive(a: real, b: real, c: real)
    requires a > 0.0 && b > 0.0 && c > 0.0
    ensures a * b * c > 0.0
  {
    TimesPositive(a, b);
    TimesPositive(a * b, c);
  }

  /**
   * If the first step changes no gradient, it passes the curvature test and the Hessian is rescaled
   * by zero: where all gradient entries allow a tolerance, the result is the zero matrix.
   */
  lemma FirstStepWithoutChange(st: Step, h: Matrix)
    requires st.Sized(|h|) && Square(h, |h|) && st.first && st.flat == 0.0 && st.y == Zero(|h|)
    requires Dot(st.s, MatVec(h, st.s)) != 0.0
    requires forall i :: 0 <= i < |h| ==> Tolerance(st, i) > 0.0
    ensures Decide(st, MatVec(h, st.s), Dot(st.s, MatVec(h, st.s))) == Agrees
    ensures forall p, q :: 0 <= p < |h| && 0 <= q < |h| ==> Next(st, h)[p][q] == 0.0
  {
    var t := MatVec(h, st.s);
    var den2 := Dot(st.s, t);
    DotZero(st.s);
    assert Gamma(st, den2) == 0.0;
    hide Gamma;
    var t' := Scaled(Gamma(st, den2), t);
    forall i | 0 <= i < |h| ensures Abs(st.y[i] - t'[i]) == 0.0 {
      ZeroScaledBy(t[i]);
    }
    forall p, q | 0 <= p < |h| && 0 <= q < |h| ensures ScaledMatrix(0.0, h, |h|)[p][q] == 0.0 {
      ZeroScaledBy(h[p][q]);
    }
  }

  /**
   * With a Hessian that takes s to zero, as the zero matrix of the lemma before, an update divides by
   * zero exactly if the curvature test is passed and it is the first, or the gradient has changed by
   * the tolerance somewhere.
   */
  lemma SingularHessian(st: Step, h: Matrix)
    requires st.Sized(|h|) && Square(h, |h|) && MatVec(h, st.s) == Zero(|h|)
    ensures Decide(st, MatVec(h, st.s), Dot(st.s, MatVec(h, st.s))) == Undefined <==>
      Dot(st.s, st.y) >= st.flat &&
      (st.first || exists i :: 0 <= i < |h| && Abs(st.y[i]) >= Tolerance(st, i))
  {
    DotZero(st.s);
    var t := Scaled(1.0, Zero(|h|));
    forall i | 0 <= i < |h| ensures Abs(st.y[i] - t[i]) == Abs(st.y[i]) {
      assert t[i] == 0.0;
    }
  }

  lemma ZeroScaledBy(x: real)
    ensures 0.0 * x == 0.0
  {
  }
}
