/** The quadratic model of L-BFGS-B and what cauchy carries along to follow it: the products W'd and W'z, and slopes. */
module QuadraticModel {
  import opened Vectors
  import opened Blas
  import opened CorrectionMemory

  // ----- the model: B = theta I - W M W' with W = [Y theta S] -----

  /** The pairs, theta, and the product with the middle matrix M. */
  datatype Model = Model(ps: seq<Pair>, theta: real, middle: Vector -> Vector)

  ghost function TransAt(q: Model, v: Vector, j: int): real
    requires Sized(q.ps, |v|) && 0 <= j < 2 * |q.ps|
  {
    if j < |q.ps| then Dot(q.ps[j].y, v) else Times(q.theta, Dot(q.ps[j - |q.ps|].s, v))
  }

  /** W'v. */
  ghost function Trans(q: Model, v: Vector): (r: Vector)
    requires Sized(q.ps, |v|)
    ensures |r| == 2 * |q.ps| && forall j :: 0 <= j < |r| ==> r[j] == TransAt(q, v, j)
  {
    seq(2 * |q.ps|, j requires 0 <= j < 2 * |q.ps| => TransAt(q, v, j))
  }

  ghost function RowAt(q: Model, n: nat, b: int, j: int): real
    requires Sized(q.ps, n) && 1 <= b <= n && 0 <= j < 2 * |q.ps|
  {
    if j < |q.ps| then q.ps[j].y[b - 1] else Times(q.theta, q.ps[j - |q.ps|].s[b - 1])
  }

  /** Row b of W. */
  ghost function Row(q: Model, n: nat, b: int): (r: Vector)
    requires Sized(q.ps, n) && 1 <= b <= n
    ensures |r| == 2 * |q.ps| && forall j :: 0 <= j < |r| ==> r[j] == RowAt(q, n, b, j)
  {
    seq(2 * |q.ps|, j requires 0 <= j < 2 * |q.ps| => RowAt(q, n, b, j))
  }

  /** The product with M keeps the size and belongs to a symmetric matrix. */
  ghost predicate IsSymmetric(middle: Vector -> Vector, k: nat) {
    && (forall v: Vector :: |v| == k ==> |middle(v)| == k)
    && (forall u: Vector, v: Vector :: |u| == |v| == k ==> Form(middle, u, v) == Form(middle, v, u))
  }

  /** u'Mv. */
  function Form(middle: Vector -> Vector, u: Vector, v: Vector): real {
    if |middle(v)| == |u| then Dot(u, middle(v)) else 0.0
  }

  ghost predicate Proper(q: Model, n: nat) {
    Sized(q.ps, n) && IsSymmetric(q.middle, 2 * |q.ps|)
  }

  /** u'Bv. */
  ghost function Bilinear(q: Model, u: Vector, v: Vector): real
    requires Sized(q.ps, |u|) && |u| == |v|
  {
    Times(q.theta, Dot(u, v)) - Form(q.middle, Trans(q, u), Trans(q, v))
  }

  /** The slope of the model along d at z: g'd + d'Bz. */
  ghost function SlopeAt(q: Model, g: Vector, d: Vector, z: Vector): real
    requires Sized(q.ps, |d|) && |g| == |d| == |z|
  {
    Dot(g, d) + Bilinear(q, d, z)
  }

  // ----- products of changed vectors -----

  lemma DotAdd(u: Vector, v: Vector, a: real, w: Vector)
    requires |u| == |v| == |w|
    ensures Dot(u, Plus(v, Scaled(a, w))) == Dot(u, v) + Times(a, Dot(u, w))
  {
    hide Dot;
    DotPlus(u, v, Scaled(a, w));
    DotScale(a, u, w);
  }

  lemma {:induction false} DotUpdateTo(u: Vector, v: Vector, b: int, w: real, k: nat)
    requires k <= |u| == |v| && 1 <= b <= |v|
    ensures DotTo(u, v[b - 1 := w], k) == DotTo(u, v, k) + if b <= k then Times(w - v[b - 1], u[b - 1]) else 0.0
  {
    if k > 0 {
      DotUpdateTo(u, v, b, w, k - 1);
      if k == b {
        var p, q := u[b - 1], v[b - 1];
        assert (w - q) * p == p * w - p * q;
      }
    }
  }

  lemma DotUpdate(u: Vector, v: Vector, b: int, w: real)
    requires |u| == |v| && 1 <= b <= |v|
    ensures Dot(u, v[b - 1 := w]) == Dot(u, v) + Times(w - v[b - 1], u[b - 1])
  {
    DotUpdateTo(u, v, b, w, |u|);
  }

  lemma Nested(theta: real, x: real, a: real, y: real)
    ensures Times(theta, x + Times(a, y)) == Times(theta, x) + Times(a, Times(theta, y))
  {
    assert theta * (x + a * y) == theta * x + theta * (a * y);
    assert theta * (a * y) == a * (theta * y);
  }

  /** W'(v + a w) = W'v + a W'w. */
  lemma TransAdd(q: Model, v: Vector, a: real, w: Vector)
    requires Sized(q.ps, |v|) && |v| == |w|
    ensures Trans(q, Plus(v, Scaled(a, w))) == Plus(Trans(q, v), Scaled(a, Trans(q, w)))
  {
    hide Dot, Times;
    var l, r := Trans(q, Plus(v, Scaled(a, w))), Plus(Trans(q, v), Scaled(a, Trans(q, w)));
    forall j | 0 <= j < |l| ensures l[j] == r[j] {
      ScaledIs(a, Trans(q, w), j);
      if j < |q.ps| {
        DotAdd(q.ps[j].y, v, a, w);
      } else {
        var s := q.ps[j - |q.ps|].s;
        DotAdd(s, v, a, w);
        Nested(q.theta, Dot(s, v), a, Dot(s, w));
      }
    }
  }

  lemma ScaledIs(a: real, v: Vector, j: int)
    requires 0 <= j < |v|
    ensures Scaled(a, v)[j] == Times(a, v[j])
  {
  }

  /** Another value in component b adds a multiple of row b of W. */
  lemma TransUpdate(q: Model, v: Vector, b: int, w: real)
    requires Sized(q.ps, |v|) && 1 <= b <= |v|
    ensures Trans(q, v[b - 1 := w]) == Plus(Trans(q, v), Scaled(w - v[b - 1], Row(q, |v|, b)))
  {
    hide Dot, Times;
    var a, row := w - v[b - 1], Row(q, |v|, b);
    var l, r := Trans(q, v[b - 1 := w]), Plus(Trans(q, v), Scaled(a, row));
    forall j | 0 <= j < |l| ensures l[j] == r[j] {
      ScaledIs(a, row, j);
      if j < |q.ps| {
        DotUpdate(q.ps[j].y, v, b, w);
      } else {
        var s := q.ps[j - |q.ps|].s;
        DotUpdate(s, v, b, w);
        Nested(q.theta, Dot(s, v), a, s[b - 1]);
      }
    }
  }

  lemma FormAdd(middle: Vector -> Vector, u: Vector, a: real, w: Vector, v: Vector)
    requires |u| == |v| == |w| && IsSymmetric(middle, |u|)
    ensures Form(middle, Plus(u, Scaled(a, w)), v) == Form(middle, u, v) + Times(a, Form(middle, w, v))
    ensures Form(middle, v, Plus(u, Scaled(a, w))) == Form(middle, v, u) + Times(a, Form(middle, v, w))
  {
    hide Dot, Times;
    var r, t := middle(v), Plus(u, Scaled(a, w));
    DotAdd(r, u, a, w);
    DotSymmetric(r, u);
    DotSymmetric(r, w);
    DotSymmetric(r, t);
    assert Form(middle, v, t) == Form(middle, t, v);
    assert Form(middle, v, u) == Form(middle, u, v) && Form(middle, v, w) == Form(middle, w, v);
  }

  // ----- what one breakpoint does to the slopes -----

  /** Moving on by dt along d: the slope grows by dt times the curvature. */
  lemma SlopeMoves(q: Model, g: Vector, d: Vector, z: Vector, dt: real)
    requires Proper(q, |d|) && |g| == |d| == |z|
    ensures SlopeAt(q, g, d, Plus(z, Scaled(dt, d))) == SlopeAt(q, g, d, z) + Times(dt, Bilinear(q, d, d))
  {
    hide Dot, Times, Form, Trans, IsSymmetric;
    TransAdd(q, z, dt, d);
    FormAdd(q.middle, Trans(q, z), dt, Trans(q, d), Trans(q, d));
    DotAdd(d, z, dt, d);
    Nested(q.theta, Dot(d, z), dt, Dot(d, d));
    TimesMinus(dt, Times(q.theta, Dot(d, d)), Form(q.middle, Trans(q, d), Trans(q, d)));
  }

  lemma TimesMinus(a: real, x: real, y: real)
    ensures Times(a, x - y) == Times(a, x) - Times(a, y)
  {
    assert a * (x - y) == a * x - a * y;
  }

  /** Component b of the direction becomes zero: what u'Bv loses for u = d. */
  lemma BilinearDrops(q: Model, d: Vector, v: Vector, b: int)
    requires Proper(q, |d|) && |d| == |v| && 1 <= b <= |d|
    ensures var e, row := d[b - 1], Row(q, |d|, b);
      Bilinear(q, d[b - 1 := 0.0], v) ==
      Bilinear(q, d, v) - Times(q.theta, Times(e, v[b - 1])) + Times(e, Form(q.middle, row, Trans(q, v)))
  {
    hide Dot, Times, Form, Trans, IsSymmetric;
    var e, row, p, c := d[b - 1], Row(q, |d|, b), Trans(q, d), Trans(q, v);
    TransUpdate(q, d, b, 0.0);
    FormAdd(q.middle, p, -e, row, c);
    DotUpdate(v, d, b, 0.0);
    DotSymmetric(v, d);
    DotSymmetric(v, d[b - 1 := 0.0]);
    Nested(q.theta, Dot(d, v), -e, v[b - 1]);
    Negated(e, v[b - 1]);
    Negated(e, Times(q.theta, v[b - 1]));
    Negated(e, Form(q.middle, row, c));
    Swapped(q.theta, e, v[b - 1]);
  }

  lemma Negated(a: real, x: real)
    ensures Times(-a, x) == -Times(a, x)
  {
  }

  lemma Swapped(theta: real, a: real, x: real)
    ensures Times(theta, Times(a, x)) == Times(a, Times(theta, x))
  {
    assert theta * (a * x) == a * (theta * x);
  }

  /** The curvature of the direction without component b. */
  lemma CurvatureDrops(q: Model, d: Vector, b: int)
    requires Proper(q, |d|) && 1 <= b <= |d|
    ensures var e, row, p := d[b - 1], Row(q, |d|, b), Trans(q, d);
      Bilinear(q, d[b - 1 := 0.0], d[b - 1 := 0.0]) ==
      Bilinear(q, d, d) - Times(q.theta, Times(e, e)) + 2.0 * Times(e, Form(q.middle, row, p))
        - Times(Times(e, e), Form(q.middle, row, row))
  {
    hide Dot, Times, Form, Trans, IsSymmetric;
    var e, row, p, d' := d[b - 1], Row(q, |d|, b), Trans(q, d), d[b - 1 := 0.0];
    BilinearDrops(q, d, d', b);
    BilinearDrops(q, d, d, b);
    BilinearSymmetric(q, d, d');
    TransUpdate(q, d, b, 0.0);
    FormAdd(q.middle, p, -e, row, row);
    ZeroProduct(q.theta, e);
    Distribute(e, Form(q.middle, row, p), Form(q.middle, row, row));
  }

  lemma ZeroProduct(theta: real, e: real)
    ensures Times(theta, Times(e, 0.0)) == 0.0
  {
  }

  lemma Distribute(e: real, x: real, y: real)
    ensures Times(e, x + Times(-e, y)) == Times(e, x) - Times(Times(e, e), y)
  {
    assert e * (x + -e * y) == e * x + e * (-e * y);
    assert e * (-e * y) == -((e * e) * y);
  }

  /** The slope after the breakpoint of variable b, which has moved by zb. */
  lemma NextSlope(q: Model, g: Vector, d: Vector, z: Vector, dt: real, b: int, zb: real, wmc: real)
    requires Proper(q, |d|) && |g| == |d| == |z| && 1 <= b <= |d|
    requires d[b - 1] == -g[b - 1] && zb == z[b - 1] + Times(dt, d[b - 1])
    requires wmc == Form(q.middle, Trans(q, Plus(z, Scaled(dt, d))), Row(q, |d|, b))
    ensures SlopeAt(q, g, d[b - 1 := 0.0], Plus(z, Scaled(dt, d))) ==
            SlopeAt(q, g, d, z) + Times(dt, Bilinear(q, d, d)) + Times(d[b - 1], d[b - 1])
              - Times(q.theta, Times(d[b - 1], zb)) + Times(d[b - 1], wmc)
  {
    hide Dot, Times, Form, Trans, IsSymmetric, Bilinear;
    var e, z', row := d[b - 1], Plus(z, Scaled(dt, d)), Row(q, |d|, b);
    SlopeMoves(q, g, d, z, dt);
    BilinearDrops(q, d, z', b);
    DotUpdate(g, d, b, 0.0);
    Negated(e, g[b - 1]);
    Negated(e, e);
    NegatedRight(e, e);
    ScaledIs(dt, d, b - 1);
    assert Form(q.middle, row, Trans(q, z')) == Form(q.middle, Trans(q, z'), row) by {
      SymmetricAt(q.middle, row, Trans(q, z'));
    }
  }

  lemma SymmetricAt(middle: Vector -> Vector, u: Vector, v: Vector)
    requires |u| == |v| && IsSymmetric(middle, |u|)
    ensures Form(middle, u, v) == Form(middle, v, u)
  {
  }

  lemma NegatedRight(a: real, x: real)
    ensures Times(a, -x) == -Times(a, x)
  {
  }

  lemma BilinearSymmetric(q: Model, u: Vector, v: Vector)
    requires Proper(q, |u|) && |u| == |v|
    ensures Bilinear(q, u, v) == Bilinear(q, v, u)
  {
    hide Dot, Times, Form, Trans;
    DotSymmetric(u, v);
  }

  /** f1 and f2 as they would be without pairs, and what the pairs add. */
  function PlainF1(theta: real, f1: real, f2: real, dt: real, dibp: real, zibp: real): real {
    f1 + dt * f2 + dibp * dibp - theta * dibp * zibp
  }

  function PlainF2(theta: real, f2: real, dibp: real): real {
    f2 - theta * (dibp * dibp)
  }

  function AddedF2(dibp: real, wmp: real, wmw: real): real {
    2.0 * dibp * wmp - dibp * dibp * wmw
  }

  lemma FormulasAgree(theta: real, f1: real, f2: real, dt: real, e: real, zb: real, wmp: real, wmw: real)
    ensures PlainF1(theta, f1, f2, dt, e, zb) == f1 + Times(dt, f2) + Times(e, e) - Times(theta, Times(e, zb))
    ensures PlainF2(theta, f2, e) == f2 - Times(theta, Times(e, e))
    ensures AddedF2(e, wmp, wmw) == 2.0 * Times(e, wmp) - Times(Times(e, e), wmw)
  {
    assert theta * (e * zb) == theta * e * zb;
  }

  function Zeros(n: nat): (z: Vector)
    ensures |z| == n && forall i :: 0 <= i < n ==> z[i] == 0.0
  {
    seq(n, i => 0.0)
  }

  lemma {:induction false} DotZeros(u: Vector, v: Vector, k: nat)
    requires k <= |u| == |v| && forall i :: 0 <= i < |v| ==> v[i] == 0.0
    ensures DotTo(u, v, k) == 0.0
  {
    if k > 0 {
      DotZeros(u, v, k - 1);
      TimesZero(u[k - 1]);
    }
  }

  /** What cauchy keeps for the current point of the path: p = W'd, c = W'z, and the slopes f1 and f2. */
  class Derivatives {
    const n: nat
    const m: nat
    const col: nat
    const head: nat
    const ws: array2<real>
    const wy: array2<real>
    const theta: real
    const middle: Vector -> Vector
    const epsmch: real
    const p: array<real>
    const c: array<real>
    const wbp: array<real>
    const v: array<real>
    var f1: real
    var f2: real
    var f2org: real
    /** The curvature has been raised to its least value. */
    ghost var clamped: bool
    ghost const ps: seq<Pair>

    constructor (n: nat, m: nat, col: nat, head: nat, ws: array2<real>, wy: array2<real>, theta: real,
                 middle: Vector -> Vector, epsmch: real, ghost ps: seq<Pair>)
      requires ws.Length0 == wy.Length0 == n + 1 && ws.Length1 == wy.Length1 == m + 1
      requires 1 <= head <= m && col == |ps| && Stored(ws, wy, head, m, ps) && Proper(Model(ps, theta, middle), n)
      ensures Ring() && this.n == n && this.ps == ps && this.theta == theta && this.middle == middle
      ensures this.epsmch == epsmch && fresh(p) && fresh(c) && fresh(wbp) && fresh(v)
    {
      this.n, this.m, this.col, this.head, this.ws, this.wy := n, m, col, head, ws, wy;
      this.theta, this.middle, this.epsmch, this.ps := theta, middle, epsmch, ps;
      p := new real[2 * col + 1];
      c := new real[2 * col + 1];
      wbp := new real[2 * col + 1];
      v := new real[2 * col + 1];
      f1, f2, f2org, clamped := 0.0, 0.0, 0.0, false;
    }

    ghost predicate Shapes() {
      && ws.Length0 == wy.Length0 == n + 1 && ws.Length1 == wy.Length1 == m + 1
      && p.Length == c.Length == wbp.Length == v.Length == 2 * col + 1
      && p != c && p != wbp && p != v && c != wbp && c != v && wbp != v
      && 1 <= head <= m && col == |ps| <= m && Proper(Of(), n)
    }

    ghost function Of(): Model {
      Model(ps, theta, middle)
    }

    /** The model with theta = 1, for which p is built up at first. */
    ghost function Plain(): Model {
      Model(ps, 1.0, middle)
    }

    /** A smaller curvature is raised to this. */
    ghost function Least(): real
      reads `f2org
    {
      epsmch * f2org
    }

    ghost predicate Ring()
      reads ws, wy
    {
      Shapes() && Stored(ws, wy, head, m, ps)
    }

    /** p and f1 while the direction d is being built up. */
    ghost predicate Building(d: Vector)
      reads `f1, p
    {
      Shapes() && |d| == n && Vec(p) == Trans(Plain(), d) && f1 == -Dot(d, d)
    }

    /** p and c belong to the direction d and the point z, and f1 and f2 are the slope and its growth. */
    ghost predicate Holds(g: Vector, d: Vector, z: Vector)
      reads `f1, `f2, `clamped, p, c
    {
      && Shapes() && |g| == |d| == |z| == n
      && Vec(p) == Trans(Of(), d) && Vec(c) == Trans(Of(), z)
      && (!clamped ==> f1 == SlopeAt(Of(), g, d, z) && f2 == Bilinear(Of(), d, d))
    }

    method Clear()
      requires Shapes()
      modifies `f1, p
      ensures Building(Zeros(n))
    {
      f1 := 0.0;
      var i := 1;
      while i < p.Length
        invariant 1 <= i <= p.Length && forall k :: 1 <= k < i ==> p[k] == 0.0
        modifies p
      {
        p[i] := 0.0;
        i := i + 1;
      }
      TransZero(Plain(), n);
      DotZeros(Zeros(n), Zeros(n), n);
      assert Dot(Zeros(n), Zeros(n)) == 0.0;
      assert Vec(p) == Trans(Plain(), Zeros(n));
    }

    /** The entries of the ring in row i. */
    lemma RingEntry(i: nat, pointr: nat, j: nat)
      requires Ring() && 1 <= i <= n && 1 <= j <= col && pointr == Slot(head, j - 1, m)
      ensures pointr <= m && wy[i, pointr] == ps[j - 1].y[i - 1] && ws[i, pointr] == ps[j - 1].s[i - 1]
    {
      assert StoredAt(ws, wy, pointr, ps[j - 1]);
      assert Column(wy, pointr)[i - 1] == wy[i, pointr] && Column(ws, pointr)[i - 1] == ws[i, pointr];
    }

    /** Component k of the vector has been reached after j - 1 rounds. */
    predicate Reached(k: int, j: int) {
      0 <= k < j - 1 || col <= k < col + j - 1
    }

    /** Variable i moves in direction neggi: p := p + neggi W'e_i, still with theta = 1. */
    method Include(i: nat, neggi: real, ghost d: Vector)
      requires Ring() && Building(d) && 1 <= i <= n && d[i - 1] == 0.0
      modifies `f1, p
      ensures Building(d[i - 1 := neggi])
    {
      hide Dot, Slot, NextSlot, Trans, Row, RowAt, Stored, Sized, IsSymmetric, Times;
      ghost var row, p0 := Row(Plain(), n, i), Vec(p);
      SquareAdds(d, i, neggi);
      f1 := f1 - neggi * neggi;
      TransUpdate(Plain(), d, i, neggi);
      SlotStep(head, 0, m);
      var pointr := head;
      var j := 1;
      while j <= col
        invariant 1 <= j <= col + 1 && (j <= col ==> pointr == Slot(head, j - 1, m))
        invariant forall k {:trigger p[k]} :: 1 <= k <= 2 * col ==>
          p[k] == if Reached(k - 1, j) then p0[k - 1] + Times(neggi, row[k - 1]) else p0[k - 1]
        modifies p
      {
        SlotFollows(head, j - 1, m);
        IncludePair(i, neggi, pointr, j);
        pointr := NextSlot(pointr, m);
        j := j + 1;
      }
      SumIs(Vec(p), p0, neggi, row);
    }

    /** The part of the pair in column pointr of the ring, the j-th. */
    method IncludePair(i: nat, neggi: real, pointr: nat, j: nat)
      requires Ring() && 1 <= i <= n && 1 <= j <= col && pointr == Slot(head, j - 1, m)
      modifies p
      ensures p[j] == old(p[j]) + Times(neggi, Row(Plain(), n, i)[j - 1])
      ensures p[col + j] == old(p[col + j]) + Times(neggi, Row(Plain(), n, i)[col + j - 1])
      ensures forall k :: 0 <= k < p.Length && k != j && k != col + j ==> p[k] == old(p[k])
    {
      RowTerms(i, neggi, pointr, j);
      hide Row, Stored, Times, IsSymmetric, Sized, Slot;
      p[j] := p[j] + wy[i, pointr] * neggi;
      p[col + j] := p[col + j] + ws[i, pointr] * neggi;
    }

    lemma RowTerms(i: nat, a: real, pointr: nat, j: nat)
      requires Ring() && 1 <= i <= n && 1 <= j <= col && pointr == Slot(head, j - 1, m)
      ensures pointr <= m && wy[i, pointr] * a == Times(a, Row(Plain(), n, i)[j - 1])
      ensures ws[i, pointr] * a == Times(a, Row(Plain(), n, i)[col + j - 1])
    {
      hide Row, Stored, Times, IsSymmetric, Slot;
      RingEntry(i, pointr, j);
      RowEntry(i, j, a);
    }

    lemma RowEntry(i: nat, j: nat, a: real)
      requires Shapes() && 1 <= i <= n && 1 <= j <= col
      ensures ps[j - 1].y[i - 1] * a == Times(a, Row(Plain(), n, i)[j - 1])
      ensures ps[j - 1].s[i - 1] * a == Times(a, Row(Plain(), n, i)[col + j - 1])
    {
      hide IsSymmetric;
    }

    /** Brings in theta. */
    method ScaleHalf(ghost d: Vector)
      requires Building(d)
      modifies p
      ensures Vec(p) == Trans(Of(), d)
    {
      hide Dot, IsSymmetric;
      ghost var p0 := Vec(p);
      if theta != 1.0 {
        var j := 1;
        while j <= col
          invariant 1 <= j <= col + 1
          invariant forall k :: 0 <= k < 2 * col ==>
            p[k + 1] == if col <= k < col + j - 1 then Times(theta, p0[k]) else p0[k]
        {
          p[col + j] := theta * p[col + j];
          j := j + 1;
        }
      }
      hide Trans, Times, Sized;
      forall k | 0 <= k < 2 * col ensures Vec(p)[k] == Trans(Of(), d)[k] {
        PlainEntry(d, k);
      }
      assert Vec(p) == Trans(Of(), d);
    }

    lemma PlainEntry(d: Vector, k: int)
      requires Shapes() && |d| == n && 0 <= k < 2 * col
      ensures Trans(Of(), d)[k] == if k < col then Trans(Plain(), d)[k] else Times(theta, Trans(Plain(), d)[k])
      ensures theta == 1.0 ==> Trans(Of(), d)[k] == Trans(Plain(), d)[k]
    {
      hide Dot, IsSymmetric, Times;
      if k >= col {
        TimesOne(Dot(ps[k - col].s, d));
      }
    }

    /** v := M x. */
    method Bmv(x: array<real>)
      requires Shapes() && x.Length == 2 * col + 1 && x != v
      modifies v
      ensures Vec(v) == middle(Vec(x))
    {
      KeepsSize(middle, Vec(x));
      hide IsSymmetric, Sized;
      var r := middle(x[1..]);
      var j := 1;
      while j < v.Length
        invariant 1 <= j <= v.Length && forall k :: 1 <= k < j ==> v[k] == r[k - 1]
      {
        v[j] := r[j - 1];
        j := j + 1;
      }
      assert Vec(v) == r;
    }

    /** u'Mx for a vector that Bmv has been applied to. */
    method FormOf(u: array<real>, ghost x: Vector) returns (s: real)
      requires Shapes() && u.Length == 2 * col + 1 && |x| == 2 * col && Vec(v) == middle(x)
      ensures s == Form(middle, Vec(u), x)
    {
      s := Ddot(u, v, 1);
    }

    /** The first segment starts: c = 0 and the curvature along d. */
    method Begin(fails: bool, ghost g: Vector, ghost d: Vector) returns (ok: bool)
      requires Shapes() && |g| == |d| == n && Vec(p) == Trans(Of(), d) && f1 == -Dot(d, d) == Dot(g, d)
      modifies `f2, `f2org, `clamped, c, v
      ensures ok ==> Holds(g, d, Zeros(n)) && !clamped && f2org == Times(theta, Dot(d, d))
      ensures !ok ==> fails
    {
      hide Dot, Trans, Sized, IsSymmetric, Form;
      ok := true;
      clamped := false;
      ClearC();
      f2 := -theta * f1;
      f2org := f2;
      SlopeAtOrigin(Of(), g, d);
      if col > 0 {
        Bmv(p);
        if fails {
          return false;
        }
        var pv := FormOf(p, Vec(p));
        f2 := f2 - pv;
      } else {
        EmptyForm(Vec(p), Vec(p));
      }
    }

    /** wbp := row b of W. */
    method TakeRow(b: nat)
      requires Ring() && 1 <= b <= n
      modifies wbp
      ensures Vec(wbp) == Row(Of(), n, b)
    {
      hide Slot, NextSlot, Row, RowAt, Stored, Sized, IsSymmetric, Times;
      ghost var row := Row(Of(), n, b);
      SlotStep(head, 0, m);
      var pointr := head;
      var j := 1;
      while j <= col
        invariant 1 <= j <= col + 1 && (j <= col ==> pointr == Slot(head, j - 1, m))
        invariant forall k {:trigger wbp[k]} :: 1 <= k <= 2 * col && Reached(k - 1, j) ==> wbp[k] == row[k - 1]
      {
        SlotFollows(head, j - 1, m);
        RingEntry(b, pointr, j);
        RowIs(b, j);
        wbp[j] := wy[b, pointr];
        wbp[col + j] := theta * ws[b, pointr];
        pointr := NextSlot(pointr, m);
        j := j + 1;
      }
      assert Vec(wbp) == row;
    }

    lemma RowIs(b: nat, j: nat)
      requires Shapes() && 1 <= b <= n && 1 <= j <= col
      ensures Row(Of(), n, b)[j - 1] == ps[j - 1].y[b - 1]
      ensures Row(Of(), n, b)[col + j - 1] == theta * ps[j - 1].s[b - 1]
    {
      hide IsSymmetric;
    }

    /** c := c + dt p and p := p - dibp wbp, with the products of M that the slopes need. */
    method ShiftProducts(dt: real, b: nat, dibp: real, fails: bool) returns (ok: bool, wmc: real, wmp: real, wmw: real)
      requires Ring() && 1 <= b <= n
      modifies p, c, wbp, v
      ensures !ok ==> fails
      ensures ok ==>
        && Vec(c) == Plus(old(Vec(c)), Scaled(dt, old(Vec(p))))
        && Vec(p) == Plus(old(Vec(p)), Scaled(-dibp, Row(Of(), n, b)))
        && wmc == Form(middle, Vec(c), Row(Of(), n, b)) && wmp == Form(middle, old(Vec(p)), Row(Of(), n, b))
        && wmw == Form(middle, Row(Of(), n, b), Row(Of(), n, b))
    {
      hide Row, Stored, Sized, IsSymmetric, Form, Scaled, Plus;
      ok, wmc, wmp, wmw := true, 0.0, 0.0, 0.0;
      Daxpy(dt, p, c);
      TakeRow(b);
      Bmv(wbp);
      if fails {
        ok := false;
        return;
      }
      wmc := FormOf(c, Vec(wbp));
      wmp := FormOf(p, Vec(wbp));
      wmw := FormOf(wbp, Vec(wbp));
      Daxpy(-dibp, wbp, p);
    }

    /** The same for p = W'd and c = W'z. */
    method Shift(dt: real, b: nat, dibp: real, fails: bool, ghost d: Vector, ghost z: Vector)
      returns (ok: bool, wmc: real, wmp: real, wmw: real)
      requires Ring() && |d| == |z| == n && Vec(p) == Trans(Of(), d) && Vec(c) == Trans(Of(), z)
      requires 1 <= b <= n && dibp == d[b - 1]
      modifies p, c, wbp, v
      ensures !ok ==> fails
      ensures ok ==> Vec(p) == Trans(Of(), d[b - 1 := 0.0]) && Vec(c) == Trans(Of(), Plus(z, Scaled(dt, d)))
      ensures ok ==>
        && wmc == Form(middle, Trans(Of(), Plus(z, Scaled(dt, d))), Row(Of(), n, b))
        && wmp == Form(middle, Trans(Of(), d), Row(Of(), n, b))
        && wmw == Form(middle, Row(Of(), n, b), Row(Of(), n, b))
    {
      TransAdd(Of(), z, dt, d);
      TransUpdate(Of(), d, b, 0.0);
      hide Dot, Trans, Row, Stored, IsSymmetric, Form, Scaled, Plus;
      ok, wmc, wmp, wmw := ShiftProducts(dt, b, dibp, fails);
    }

    lemma NothingToShift(d: Vector, z: Vector, dt: real, b: nat)
      requires Shapes() && |d| == |z| == n && col == 0 && 1 <= b <= n
      ensures Trans(Of(), d[b - 1 := 0.0]) == Trans(Of(), d) && Trans(Of(), Plus(z, Scaled(dt, d))) == Trans(Of(), z)
    {
    }

    /** A breakpoint is reached after dt: variable b, which has moved by zibp, stops. dibp was its direction. */
    method Proceed(dt: real, b: nat, dibp: real, zibp: real, fails: bool, ghost g: Vector, ghost d: Vector,
                   ghost z: Vector)
      returns (ok: bool)
      requires Ring() && Holds(g, d, z) && 1 <= b <= n && dibp == d[b - 1] == -g[b - 1]
      requires zibp == z[b - 1] + Times(dt, dibp)
      modifies `f1, `f2, `clamped, p, c, wbp, v
      ensures !ok ==> fails
      ensures ok ==> Holds(g, d[b - 1 := 0.0], Plus(z, Scaled(dt, d)))
      ensures ok ==> f2 >= Least()
      ensures ok ==> (clamped <==> old(clamped) || Bilinear(Of(), d[b - 1 := 0.0], d[b - 1 := 0.0]) < Least())
    {
      hide Dot, Trans, Row, Stored, Sized, IsSymmetric, Form, SlopeAt, Bilinear, Times, Scaled, Plus;
      hide PlainF1, PlainF2, AddedF2, Least;
      ok := true;
      var wmc, wmp, wmw := 0.0, 0.0, 0.0;
      if col > 0 {
        ok, wmc, wmp, wmw := Shift(dt, b, dibp, fails, d, z);
        if !ok {
          return;
        }
      } else {
        NothingToShift(d, z, dt, b);
      }
      if !clamped {
        NextDerivatives(g, d, z, dt, b, zibp, f1, f2, wmc, wmp, wmw);
      }
      UpdateSlopes(dt, dibp, zibp, wmc, wmp, wmw);
    }

    /** f1 and f2, and the least value of f2. */
    method UpdateSlopes(dt: real, dibp: real, zibp: real, wmc: real, wmp: real, wmw: real)
      modifies `f1, `f2, `clamped
      ensures f1 == PlainF1(theta, old(f1), old(f2), dt, dibp, zibp) + if col > 0 then Times(dibp, wmc) else 0.0
      ensures var curvature := PlainF2(theta, old(f2), dibp) + if col > 0 then AddedF2(dibp, wmp, wmw) else 0.0;
        && f2 == (if curvature < Least() then Least() else curvature)
        && (clamped <==> old(clamped) || curvature < Least())
    {
      hide PlainF1, PlainF2, AddedF2;
      f1 := PlainF1(theta, f1, f2, dt, dibp, zibp);
      f2 := PlainF2(theta, f2, dibp);
      if col > 0 {
        f1 := f1 + dibp * wmc;
        f2 := f2 + AddedF2(dibp, wmp, wmw);
      }
      if f2 < epsmch * f2org {
        f2 := epsmch * f2org;
        clamped := true;
      }
    }

    /** The formulas for the slopes are exact. */
    lemma NextDerivatives(g: Vector, d: Vector, z: Vector, dt: real, b: nat, zb: real, f1: real, f2: real,
                          wmc: real, wmp: real, wmw: real)
      requires Shapes() && |g| == |d| == |z| == n && 1 <= b <= n
      requires d[b - 1] == -g[b - 1] && zb == z[b - 1] + Times(dt, d[b - 1])
      requires f1 == SlopeAt(Of(), g, d, z) && f2 == Bilinear(Of(), d, d)
      requires col > 0 ==>
        && wmc == Form(middle, Trans(Of(), Plus(z, Scaled(dt, d))), Row(Of(), n, b))
        && wmp == Form(middle, Trans(Of(), d), Row(Of(), n, b))
        && wmw == Form(middle, Row(Of(), n, b), Row(Of(), n, b))
      ensures var e := d[b - 1];
        && SlopeAt(Of(), g, d[b - 1 := 0.0], Plus(z, Scaled(dt, d))) ==
          PlainF1(theta, f1, f2, dt, e, zb) + (if col > 0 then Times(e, wmc) else 0.0)
        && Bilinear(Of(), d[b - 1 := 0.0], d[b - 1 := 0.0]) ==
          PlainF2(theta, f2, e) + (if col > 0 then AddedF2(e, wmp, wmw) else 0.0)
    {
      hide Dot, Trans, Row, Sized, IsSymmetric, Form, SlopeAt, Bilinear, Times, PlainF1, PlainF2, AddedF2;
      var e, row := d[b - 1], Row(Of(), n, b);
      if col == 0 {
        EmptyForm(Trans(Of(), Plus(z, Scaled(dt, d))), row);
        EmptyForm(Trans(Of(), d), row);
        EmptyForm(row, row);
        TimesZero(e);
        TimesZero(Times(e, e));
      }
      NextSlope(Of(), g, d, z, dt, b, zb, if col > 0 then wmc else 0.0);
      CurvatureDrops(Of(), d, b);
      SymmetricAt(middle, row, Trans(Of(), d));
      FormulasAgree(theta, f1, f2, dt, e, zb, wmp, wmw);
    }

    /** The distance to the stationary point of the segment; what a division by zero gives is arbitrary. */
    method Distance(undefined: real) returns (dtm: real)
      ensures f2 != 0.0 ==> Times(dtm, f2) == -f1
    {
      if f2 == 0.0 {
        return undefined;
      }
      dtm := -f1 / f2;
    }

    /** c := c + dtm p. */
    method Conclude(dtm: real, ghost d: Vector, ghost z: Vector)
      requires Shapes() && |d| == |z| == n && Vec(p) == Trans(Of(), d) && Vec(c) == Trans(Of(), z)
      modifies c
      ensures Vec(c) == Trans(Of(), Plus(z, Scaled(dtm, d)))
    {
      TransAdd(Of(), z, dtm, d);
      hide Trans, IsSymmetric, Scaled, Plus;
      if col > 0 {
        Daxpy(dtm, p, c);
      } else {
        EmptyVectors(Vec(c), Trans(Of(), Plus(z, Scaled(dtm, d))));
      }
    }

    lemma EmptyVectors(u: Vector, v: Vector)
      requires |u| == |v| == 0
      ensures u == v
    {
    }

    method ClearC()
      requires Shapes()
      modifies c
      ensures Vec(c) == Trans(Of(), Zeros(n))
    {
      var i := 1;
      while i < c.Length
        invariant 1 <= i <= c.Length && forall k :: 1 <= k < i ==> c[k] == 0.0
      {
        c[i] := 0.0;
        i := i + 1;
      }
      TransZero(Of(), n);
      assert Vec(c) == Trans(Of(), Zeros(n));
    }

    lemma EmptyForm(u: Vector, x: Vector)
      requires Shapes() && |u| == |x| == 0
      ensures Form(middle, u, x) == 0.0
    {
    }
  }

  lemma KeepsSize(middle: Vector -> Vector, v: Vector)
    requires IsSymmetric(middle, |v|)
    ensures |middle(v)| == |v|
  {
  }

  lemma TimesOne(x: real)
    ensures Times(1.0, x) == x
  {
  }

  lemma SlopeAtOrigin(q: Model, g: Vector, d: Vector)
    requires Proper(q, |d|) && |g| == |d|
    ensures SlopeAt(q, g, d, Zeros(|d|)) == Dot(g, d)
  {
    hide Form, Trans;
    TransZero(q, |d|);
    DotZeros(d, Zeros(|d|), |d|);
    TimesZero(q.theta);
    var t := Trans(q, d);
    assert Form(q.middle, t, Zeros(|t|)) == Form(q.middle, Zeros(|t|), t);
    FormOfZero(q.middle, t);
  }

  lemma FormOfZero(middle: Vector -> Vector, v: Vector)
    requires |middle(v)| == |v|
    ensures Form(middle, Zeros(|v|), v) == 0.0
  {
    DotZeros(middle(v), Zeros(|v|), |v|);
    DotSymmetric(middle(v), Zeros(|v|));
  }

  lemma SumIs(r: Vector, u: Vector, a: real, w: Vector)
    requires |r| == |u| == |w| && forall k :: 0 <= k < |r| ==> r[k] == u[k] + Times(a, w[k])
    ensures r == Plus(u, Scaled(a, w))
  {
    hide Times;
    forall k | 0 <= k < |r| ensures r[k] == Plus(u, Scaled(a, w))[k] {
      ScaledIs(a, w, k);
    }
  }

  lemma TransZero(q: Model, n: nat)
    requires Sized(q.ps, n)
    ensures Trans(q, Zeros(n)) == Zeros(2 * |q.ps|)
  {
    forall j | 0 <= j < 2 * |q.ps| ensures Trans(q, Zeros(n))[j] == 0.0 {
      if j < |q.ps| {
        DotZeros(q.ps[j].y, Zeros(n), n);
      } else {
        DotZeros(q.ps[j - |q.ps|].s, Zeros(n), n);
        TimesZero(q.theta);
      }
    }
  }

  lemma SquareAdds(d: Vector, b: nat, w: real)
    requires 1 <= b <= |d| && d[b - 1] == 0.0
    ensures Dot(d[b - 1 := w], d[b - 1 := w]) == Dot(d, d) + w * w
  {
    hide Dot;
    var d' := d[b - 1 := w];
    DotUpdate(d', d, b, w);
    DotUpdate(d, d, b, w);
    DotSymmetric(d, d');
  }
}
