/** An input of cauchy with two variables that meet their bounds at once. */
module TiedSearch {
  import opened Blas
  import opened BoxPath
  import opened BreakpointHeap
  import CorrectionMemory
  import opened CauchyPoint
  import opened ModelPath
  import opened PassingOrder
  import opened QuadraticModel
  import opened Vectors

  // ----- when two variables meet their bounds at once -----

  lemma DotOfThree(u: Vector, v: Vector)
    requires |u| == |v| == 3
    ensures Dot(u, v) == u[0] * v[0] + u[1] * v[1] + u[2] * v[2]
  {
    assert DotTo(u, v, 1) == DotTo(u, v, 0) + Term(u, v, 1);
    assert DotTo(u, v, 2) == DotTo(u, v, 1) + Term(u, v, 2);
  }

  lemma DotOfTwo(u: Vector, v: Vector)
    requires |u| == |v| == 2
    ensures Dot(u, v) == u[0] * v[0] + u[1] * v[1]
  {
    assert DotTo(u, v, 1) == DotTo(u, v, 0) + Term(u, v, 1);
  }

  /** The middle matrix for the pair s = (1, 1, 1), y = (-2, 3, 0): s'y = 1, theta = 13, theta s's = 39. */
  function TiedMiddle(v: Vector): Vector {
    if |v| == 2 then [-v[0], v[1] / 39.0] else v
  }

  function TiedModel(): Model {
    Model([CorrectionMemory.Pair([1.0, 1.0, 1.0], [-2.0, 3.0, 0.0])], 13.0, TiedMiddle)
  }

  /** Three variables at 0 that all increase; the first two meet their bound at 1. */
  function TiedVars(): seq<Var> {
    var bounded := Var(0.0, 0.0, 1.0, 3, -1.0, 0);
    [bounded, bounded, bounded, Var(0.0, 0.0, 0.0, 0, -1.0, -1)]
  }

  lemma TiedIsProper()
    ensures Proper(TiedModel(), 3)
  {
    var q := TiedModel();
    forall u: Vector, v: Vector | |u| == |v| == 2 ensures Form(q.middle, u, v) == Form(q.middle, v, u) {
      DotOfTwo(u, TiedMiddle(v));
      DotOfTwo(v, TiedMiddle(u));
      assert u[1] * (v[1] / 39.0) == v[1] * (u[1] / 39.0);
      assert u[0] * -v[0] == v[0] * -u[0];
    }
  }

  function Sum3(v: Vector): real
    requires |v| == 3
  {
    v[0] + v[1] + v[2]
  }

  /** y'v. */
  function Along3(v: Vector): real
    requires |v| == 3
  {
    3.0 * v[1] - 2.0 * v[0]
  }

  lemma TiedTrans(v: Vector)
    requires |v| == 3 && Proper(TiedModel(), 3)
    ensures Trans(TiedModel(), v) == [Along3(v), 13.0 * Sum3(v)]
  {
    var q := TiedModel();
    DotOfThree(q.ps[0].y, v);
    DotOfThree(q.ps[0].s, v);
    assert Trans(q, v)[0] == TransAt(q, v, 0) && Trans(q, v)[1] == TransAt(q, v, 1);
  }

  lemma TiedForm(x: real, y: real, a: real, b: real)
    ensures Form(TiedMiddle, [a, 13.0 * x], [b, 13.0 * y]) == Times(13.0 / 3.0, Times(x, y)) - Times(a, b)
  {
    DotOfTwo([a, 13.0 * x], TiedMiddle([b, 13.0 * y]));
    assert 13.0 * y / 39.0 == y / 3.0;
    assert 13.0 * x * (y / 3.0) == 13.0 / 3.0 * (x * y);
    assert a * -b == -(a * b);
  }

  lemma TiedBilinear(u: Vector, v: Vector)
    requires |u| == |v| == 3 && Proper(TiedModel(), 3)
    ensures Bilinear(TiedModel(), u, v) ==
            Times(13.0, Dot(u, v)) - Times(13.0 / 3.0, Times(Sum3(u), Sum3(v))) + Times(Along3(u), Along3(v))
  {
    hide Dot, Form, Trans, Times, Sum3, Along3, IsSymmetric;
    TiedTrans(u);
    TiedTrans(v);
    TiedForm(Sum3(u), Sum3(v), Along3(u), Along3(v));
  }

  /** The model is definite: 3 v'v - (v1 + v2 + v3)^2 is a sum of squares of differences. */
  lemma TiedIsDefinite()
    ensures Proper(TiedModel(), 3) && Definite(TiedModel(), 3)
  {
    TiedIsProper();
    forall v: Vector | |v| == 3 && v != Zeros(3) ensures Bilinear(TiedModel(), v, v) > 0.0 {
      TiedBilinear(v, v);
      DotOfThree(v, v);
      TiedSquares(v);
    }
  }

  lemma TiedSquares(v: Vector)
    requires |v| == 3 && v != Zeros(3)
    ensures 13.0 * (v[0] * v[0] + v[1] * v[1] + v[2] * v[2]) - 13.0 / 3.0 * (Sum3(v) * Sum3(v)) +
            Along3(v) * Along3(v) > 0.0
  {
    var x, y, z := v[0], v[1], v[2];
    SumOfSquares(x, y, z);
    assert Times(Along3(v), Along3(v)) == Along3(v) * Along3(v);
    hide Times;
    var a, b, c, e := x - y, y - z, x - z, 3.0 * y - 2.0 * x;
    SquarePositive(a, a);
    SquarePositive(b, b);
    SquarePositive(c, c);
    SquarePositive(e, e);
    assert a != 0.0 || b != 0.0 || e != 0.0 by {
      assert x != 0.0 || y != 0.0 || z != 0.0;
    }
  }

  lemma SumOfSquares(x: real, y: real, z: real)
    ensures 13.0 * (x * x + y * y + z * z) - 13.0 / 3.0 * ((x + y + z) * (x + y + z)) ==
            13.0 / 3.0 * (Times(x - y, x - y) + Times(y - z, y - z) + Times(x - z, x - z))
  {
  }

  lemma TiedSlope(d: Vector, z: Vector)
    requires |d| == |z| == 3 && Proper(TiedModel(), 3)
    ensures SlopeAt(TiedModel(), Gradient(TiedVars()), d, z) ==
            -Sum3(d) + 13.0 * (d[0] * z[0] + d[1] * z[1] + d[2] * z[2]) - 13.0 / 3.0 * (Sum3(d) * Sum3(z)) +
            Along3(d) * Along3(z)
  {
    hide Bilinear, IsSymmetric;
    DotOfThree(Gradient(TiedVars()), d);
    DotOfThree(d, z);
    TiedBilinear(d, z);
  }

  lemma TiedVariables(r: real)
    requires 0.0 <= r <= 1.0
    ensures var v := TiedVars()[1];
      && v.Sane() && v.Meets() && v.MeetsAt() == 1.0 && v.Path(r) - v.x == r
      && HeadingOf(v, r) == if r < 1.0 then 1.0 else 0.0
    ensures var w := TiedVars()[3]; w.Sane() && w.Path(r) - w.x == r && HeadingOf(w, r) == 1.0
  {
    assert Moved(0.0, r, 1.0) == r;
  }

  lemma TiedPath(r: real)
    requires 0.0 <= r <= 1.0
    ensures Displaced(TiedVars(), r) == [r, r, r]
    ensures Heading(TiedVars(), r) == if r < 1.0 then [1.0, 1.0, 1.0] else [0.0, 0.0, 1.0]
  {
    TiedVariables(r);
    hide Var.Path, Var.Meets, Var.MeetsAt, HeadingOf;
    assert TiedVars()[2] == TiedVars()[1];
    SameThree(Displaced(TiedVars(), r), [r, r, r]);
    SameThree(Heading(TiedVars(), r), if r < 1.0 then [1.0, 1.0, 1.0] else [0.0, 0.0, 1.0]);
  }

  lemma SameThree(u: Vector, v: Vector)
    requires |u| == |v| == 3 && u[0] == v[0] && u[1] == v[1] && u[2] == v[2]
    ensures u == v
  {
  }

  /** With both variables, without the first one, and without both. */
  lemma TiedSlopes(r: real)
    requires Proper(TiedModel(), 3)
    ensures SlopeAt(TiedModel(), Gradient(TiedVars()), [1.0, 1.0, 1.0], [r, r, r]) == r - 3.0
    ensures SlopeAt(TiedModel(), Gradient(TiedVars()), [0.0, 1.0, 1.0], [1.0, 1.0, 1.0]) == 1.0
    ensures SlopeAt(TiedModel(), Gradient(TiedVars()), [0.0, 0.0, 1.0], [1.0, 1.0, 1.0]) == -1.0
  {
    hide SlopeAt, Gradient, Proper, TiedVars, TiedModel;
    TiedSlope([1.0, 1.0, 1.0], [r, r, r]);
    TiedSlope([0.0, 1.0, 1.0], [1.0, 1.0, 1.0]);
    TiedSlope([0.0, 0.0, 1.0], [1.0, 1.0, 1.0]);
  }

  /** Before the tie the model falls, and after it too. */
  lemma TiedRise(r: real)
    requires 0.0 <= r <= 1.0 && Proper(TiedModel(), 3)
    ensures |TiedVars()| == 4 && Rise(TiedVars(), TiedModel(), r) == if r < 1.0 then r - 3.0 else -1.0
  {
    hide SlopeAt, Gradient, Heading, Displaced, TiedModel, IsSymmetric;
    TiedPath(r);
    TiedSlopes(r);
  }

  lemma TiedStopped()
    ensures Stopped(TiedVars(), [Break(1.0, 1)]) == [0.0, 1.0, 1.0]
  {
    var bs := [Break(1.0, 1)];
    assert Has(bs, 1) by {
      assert bs[0].variable == 1;
    }
    SameThree(Stopped(TiedVars(), bs), [0.0, 1.0, 1.0]);
  }

  /** Variable 1 is taken before variable 2. */
  lemma TiedPassing()
    ensures Passing(TiedVars()) == [Break(1.0, 1), Break(1.0, 2)]
  {
    var vs, b1, b2 := TiedVars(), Break(1.0, 1), Break(1.0, 2);
    TiedVariables(0.0);
    assert vs[2] == vs[1];
    assert Found(vs, 1) == [b1] by {
      assert Found(vs, 0) == [];
    }
    assert Found(vs, 3) == Found(vs, 2) == [b1, b2];
    TiedOrder(b1, b2);
  }

  lemma TiedOrder(b1: Break, b2: Break)
    requires b1.at == b2.at
    ensures Order([b1, b2]) == [b1, b2]
  {
    assert LeastIndex([b1, b2], 1) == 0;
    assert WithoutGap([b1, b2], 0) == [b2];
    assert Heaped([b2], 1) == [b2];
    assert Solved([b2], true) == [b2];
    assert Drain([b2], true) == [b2] + Drain([], false);
  }

  /** At the second breakpoint the model rises without variable 1 and falls without both. */
  lemma TiedIsShort()
    ensures Proper(TiedModel(), 3) && ShortAt(TiedVars(), TiedModel(), 1)
  {
    hide SlopeAt, Proper, TiedModel, TiedVars, Rise, Gradient, Passing, Heading, Displaced, Stopped;
    var vs, q := TiedVars(), TiedModel();
    TiedIsProper();
    TiedPassing();
    TiedStopped();
    assert Passing(vs)[..1] == [Break(1.0, 1)];
    forall r | 0.0 <= r <= 1.0 ensures |vs| == 4 && Rise(vs, q, r) == if r < 1.0 then r - 3.0 else -1.0 {
      TiedRise(r);
    }
    TiedRise(1.0);
    TiedPath(1.0);
    TiedSlopes(1.0);
  }

  /** This model is definite, and yet the search can only end at 1, from where the model falls on. */
  lemma TieStopsEarly(s: real)
    ensures Proper(TiedModel(), 3) && Definite(TiedModel(), 3) && EndsShort(TiedVars(), TiedModel())
    ensures EndsAt(TiedVars(), TiedModel(), s) ==> s == 1.0 && Rise(TiedVars(), TiedModel(), s) < 0.0
  {
    hide Proper, Definite, TiedModel, Rise, Passing, ShortAt, Falling;
    TiedIsDefinite();
    TiedIsShort();
    TiedPassing();
    if EndsAt(TiedVars(), TiedModel(), s) {
      var k: nat :| FirstShort(TiedVars(), TiedModel(), k) && Passing(TiedVars())[k].at == s;
      ShortIsBreak(k);
    }
  }

  lemma ShortIsBreak(k: nat)
    requires Proper(TiedModel(), 3) && ShortAt(TiedVars(), TiedModel(), k)
    ensures k < |Passing(TiedVars())|
  {
  }

  // ----- cauchy on this input -----

  /** A part of (1, 1, 1) other than zero has at least curvature 1. */
  lemma TiedCurvature(h: Vector)
    requires Proper(TiedModel(), 3) && IsPart(h, [1.0, 1.0, 1.0]) && h != Zeros(3)
    ensures Bilinear(TiedModel(), h, h) >= 1.0
  {
    hide Bilinear, Times, Dot, TiedModel, IsSymmetric;
    TiedBilinear(h, h);
    DotOfThree(h, h);
    var a, b, c := h[0], h[1], h[2];
    assert a != 0.0 || b != 0.0 || c != 0.0;
    CurvatureOfPart(a, b, c, Dot(h, h));
    assert Sum3(h) == a + b + c && Along3(h) == 3.0 * b - 2.0 * a;
  }

  lemma CurvatureOfPart(a: real, b: real, c: real, squares: real)
    requires (a == 0.0 || a == 1.0) && (b == 0.0 || b == 1.0) && (c == 0.0 || c == 1.0)
    requires (a != 0.0 || b != 0.0 || c != 0.0) && squares == a * a + b * b + c * c
    ensures Times(13.0, squares) - Times(13.0 / 3.0, Times(a + b + c, a + b + c)) +
            Times(3.0 * b - 2.0 * a, 3.0 * b - 2.0 * a) >= 1.0
  {
    if a == 0.0 {
      if b == 0.0 {
        assert c == 1.0;
      } else if c == 0.0 {
      } else {
      }
    } else if b == 0.0 {
      if c == 0.0 {
      } else {
      }
    } else if c == 0.0 {
    } else {
    }
  }

  lemma SmallBound(e: real)
    requires e <= 1.0 / 39.0
    ensures Times(e, Times(13.0, 3.0)) <= 1.0
  {
  }

  /** No curvature is raised, with any small enough epsmch. */
  lemma TiedNeverFlat(search: PathSearch, slope: Derivatives)
    requires slope.Shapes() && slope.n == search.n == 3 && slope.Of() == TiedModel() && slope.epsmch <= 1.0 / 39.0
    ensures search.Started(TiedVars(), 3) == [1.0, 1.0, 1.0] && search.Curved(slope, TiedVars())
  {
    var vs, d0 := TiedVars(), search.Started(TiedVars(), 3);
    SameThree(d0, [1.0, 1.0, 1.0]);
    DotOfThree(d0, d0);
    assert slope.theta == 13.0;
    hide Bilinear, TiedModel, IsSymmetric, Definite, Dot, Times;
    SmallBound(slope.epsmch);
    TiedIsDefinite();
    forall h: Vector | |h| == 3 ensures !search.IsFlat(slope, vs, h) {
      if IsPart(h, d0) && h != Zeros(3) {
        TiedCurvature(h);
      }
    }
  }

  /** The only pair of corrections. */
  function TiedPairs(): seq<CorrectionMemory.Pair> {
    [CorrectionMemory.Pair([1.0, 1.0, 1.0], [-2.0, 3.0, 0.0])]
  }

  /** The model as cauchy gets it. */
  method MakeModel(epsmch: real) returns (slope: Derivatives)
    ensures slope.Ring() && slope.n == 3 && slope.Of() == TiedModel() && slope.epsmch == epsmch
    ensures fresh(slope) && fresh(slope.p) && fresh(slope.c) && fresh(slope.wbp) && fresh(slope.v)
  {
    var ws := new real[4, 2]((i, j) => 1.0);
    var wy := new real[4, 2]((i, j) => if i == 1 then -2.0 else if i == 2 then 3.0 else 0.0);
    SameThree(Column(ws, 1), [1.0, 1.0, 1.0]);
    SameThree(Column(wy, 1), [-2.0, 3.0, 0.0]);
    TiedIsProper();
    slope := new Derivatives(3, 1, 1, 1, ws, wy, 13.0, TiedMiddle, epsmch, TiedPairs());
  }

  lemma TiedSane()
    ensures |TiedVars()| == 4 && forall i :: 1 <= i <= 3 ==> TiedVars()[i].Sane()
    ensures forall i :: 1 <= i <= 2 ==> TiedVars()[i] == Var(0.0, 0.0, 1.0, 3, -1.0, 0)
    ensures TiedVars()[3] == Var(0.0, 0.0, 0.0, 0, -1.0, -1)
  {
  }

  /** The variables as cauchy gets them. */
  method MakeSearch() returns (search: PathSearch)
    ensures fresh(search) && fresh(search.iwhere) && fresh(search.iorder) && fresh(search.t) && fresh(search.d)
    ensures fresh(search.xcp) && fresh(search.x) && fresh(search.l) && fresh(search.u) && fresh(search.g)
    ensures search.n == 3 && search.Shapes() && search.Given(TiedVars())
    ensures forall i :: 1 <= i <= 3 ==> search.iwhere[i] == TiedVars()[i].status
  {
    TiedSane();
    hide Var.Sane, TiedVars;
    var x := new real[] [0.0, 0.0, 0.0, 0.0];
    var l := new real[] [0.0, 0.0, 0.0, 0.0];
    var u := new real[] [1.0, 1.0, 1.0, 0.0];
    var g := new real[] [-1.0, -1.0, -1.0, -1.0];
    var nbd := new int[] [3, 3, 3, 0];
    search := new PathSearch(3, x, l, u, g, nbd);
    search.iwhere[1], search.iwhere[2], search.iwhere[3] := 0, 0, -1;
    forall i | 1 <= i <= 3
      ensures TiedVars()[i] == Var(x[i], l[i], u[i], nbd[i], g[i], TiedVars()[i].status)
      ensures search.iwhere[i] == TiedVars()[i].status
    {
      if i == 1 {
      } else if i == 2 {
      } else {
        assert i == 3;
      }
    }
  }

  lemma TiedMoves()
    ensures PathSearch.AnyMoves(TiedVars())
  {
    assert TiedVars()[1].Moves();
  }

  /** cauchy stops at s = 1 with xcp = (1, 1, 1), although the model falls on from there. */
  method TiedRun(epsmch: real) returns (xcp: array<real>, ghost s: real)
    requires 0.0 < epsmch <= 1.0 / 39.0
    ensures xcp.Length == 4 && xcp[1] == xcp[2] == xcp[3] == 1.0
    ensures Proper(TiedModel(), 3) && Definite(TiedModel(), 3)
    ensures s == 1.0 && Vec(xcp) == Displaced(TiedVars(), s) && Rise(TiedVars(), TiedModel(), s) < 0.0
  {
    hide Passing, Found, Rise, Displaced, Definite, Proper, TiedModel, EndsAt, EndsShort, Trans, PathSearch.Given;
    hide PathSearch.Curved, PathSearch.NeverFlat, PathSearch.StatusRight, PathSearch.AnyMoves, PathSearch.Started;
    hide Derivatives.Ring, Var.Path, Dot, Order;
    TiedMoves();
    var search := MakeSearch();
    var slope := MakeModel(epsmch);
    TiedNeverFlat(search, slope);
    var info, searched;
    ghost var passed;
    info, searched, s, passed := search.Cauchy(1.0, k => false, k => 0.0, slope, TiedVars());
    xcp := search.xcp;
    TieStopsEarly(s);
    TiedPath(1.0);
    assert Displaced(TiedVars(), s)[0] == xcp[1] && Displaced(TiedVars(), s)[1] == xcp[2];
    assert Displaced(TiedVars(), s)[2] == xcp[3];
  }
}
