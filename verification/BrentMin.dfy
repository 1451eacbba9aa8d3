/** Brent_fmin: golden section search with parabolic steps. */
module BrentMin {
  import opened Basics
  import opened Parabola

  /** The square root of the machine precision 2^-52. */
  const EPS: real := 1.0 / 67108864.0

  /** c is the squared inverse of the golden ratio, (3 - sqrt(5)) / 2. */
  ghost predicate IsGolden(c: real) {
    0.0 < c < 0.5 && (3.0 - 2.0 * c) * (3.0 - 2.0 * c) == 5.0
  }

  /** The distance that is kept between points of evaluation when x is the best point. */
  function Spacing(x: real, tol: real): real {
    EPS * Abs(x) + tol / 3.0
  }

  lemma SpacingPositive(x: real, tol: real)
    requires tol > 0.0
    ensures Spacing(x, tol) >= tol / 3.0 > 0.0
  {
  }

  /** A point of evaluation, and the best point when it was chosen. */
  datatype Evaluation = Evaluation(at: real, best: real)

  ghost predicate Apart(evals: seq<Evaluation>, tol: real) {
    forall i, j :: 0 <= i < j < |evals| ==> Abs(evals[i].at - evals[j].at) >= Spacing(evals[j].best, tol)
  }

  /** x is a point of evaluation with the least value; all others lie outside (a, b). */
  ghost predicate Best(f: real -> real, evals: seq<Evaluation>, a: real, b: real, x: real) {
    && (exists i :: 0 <= i < |evals| && evals[i].at == x)
    && (forall i :: 0 <= i < |evals| ==> f(x) <= f(evals[i].at))
    && (forall i :: 0 <= i < |evals| ==> evals[i].at == x || evals[i].at <= a || evals[i].at >= b)
  }

  /** f falls strictly up to m and rises strictly from there on. */
  ghost predicate Unimodal(f: real -> real, lo: real, hi: real, m: real) {
    && lo <= m <= hi
    && (forall s, t {:trigger f(s), f(t)} :: lo <= s < t <= m ==> f(s) > f(t))
    && (forall s, t {:trigger f(s), f(t)} :: m <= s < t <= hi ==> f(s) < f(t))
  }

  // ----- the next point of evaluation -----

  /** u keeps its distance from x and from both ends. */
  ghost predicate Safe(a: real, b: real, x: real, tol1: real, u: real) {
    a + tol1 <= u <= b - tol1 && Abs(u - x) >= tol1
  }

  lemma GoldenStep(c: real, e: real, tol1: real)
    requires 0.0 < c < 0.5 && tol1 > 0.0
    ensures e > 2.0 * tol1 ==> 0.0 < c * e <= e - tol1
    ensures -e > 2.0 * tol1 ==> e + tol1 <= c * e < 0.0
  {
    if e > 0.0 {
      Scaled(c, e);
      Scaled(0.5 - c, e);
      assert (0.5 - c) * e == 0.5 * e - c * e;
    } else if e < 0.0 {
      Scaled(c, -e);
      Scaled(0.5 - c, -e);
      assert (0.5 - c) * -e == c * e - 0.5 * e;
      assert c * -e == -(c * e);
    }
  }

  lemma Scaled(x: real, y: real)
    requires x > 0.0 && y > 0.0
    ensures x * y > 0.0
  {
  }

  lemma NotMore(x: real, y: real, q: real)
    requires x <= y && q > 0.0
    ensures q * x <= q * y && x * q <= y * q
  {
    assert (y - x) * q >= 0.0;
  }

  ghost predicate IsQuotient(p: real, q: real, s: real) {
    q * s == p
  }

  /** A parabolic step is taken if it is less than half of the step before last and stays within the bracket. */
  ghost predicate Acceptable(a: real, b: real, x: real, s: real, r: real) {
    Abs(s) < Abs(r) * 0.5 && a < x + s < b
  }

  /** s leads to the vertex of the parabola through the last points, and this step is taken. */
  ghost predicate Parabolic(a: real, b: real, x: real, w: real, v: real, fx: real, fw: real, fv: real, e0: real,
                            tol1: real, s: real)
  {
    Abs(e0) > tol1 && LeadsToVertex(x, w, v, fx, fw, fv, s) && Acceptable(a, b, x, s, e0)
  }

  /** The step s, or one towards the middle if s leads too close to an end. */
  function KeptFromEnds(a: real, b: real, x: real, tol1: real, s: real): real {
    if x + s - a < 2.0 * tol1 || b - (x + s) < 2.0 * tol1 then (if x < (a + b) * 0.5 then tol1 else -tol1) else s
  }

  /** The longer side of the bracket, as a step from x. */
  function LongerSide(a: real, b: real, x: real): real {
    if x < (a + b) * 0.5 then b - x else a - x
  }

  /** The parabola through the last points: numerator and denominator of the step, with q >= 0. */
  method FitParabola(x: real, w: real, v: real, fx: real, fw: real, fv: real, e: real, d: real, tol1: real)
    returns (p: real, q: real, r: real, e': real)
    ensures q >= 0.0
    ensures if Abs(e) > tol1 then r == e && e' == d else p == q == r == 0.0 && e' == e
    ensures Abs(e) > tol1 && Consistent(x, w, v, fx, fw, fv) ==>
      forall s :: LeadsToVertex(x, w, v, fx, fw, fv, s) <==> q > 0.0 && IsQuotient(p, q, s)
  {
    p, q, r, e' := 0.0, 0.0, 0.0, e;
    if Abs(e) > tol1 {
      r := (x - w) * (fx - fv);
      q := (x - v) * (fx - fw);
      p := (x - v) * q - (x - w) * r;
      q := (q - r) * 2.0;
      ghost var p0, q0 := p, q;
      if q > 0.0 {
        p := -p;
      } else {
        q := -q;
      }
      StepsToVertex(x, w, v, fx, fw, fv, p0, q0, p, q);
      r := e;
      e' := d;
    }
  }

  lemma StepsToVertex(x: real, w: real, v: real, fx: real, fw: real, fv: real, p: real, q: real, p': real, q': real)
    requires p == Numerator(x - w, x - v, fx - fw, fx - fv) && q == Denominator(x - w, x - v, fx - fw, fx - fv)
    requires (p' == -p && q' == q) || (p' == p && q' == -q)
    ensures Consistent(x, w, v, fx, fw, fv) ==>
      forall s :: LeadsToVertex(x, w, v, fx, fw, fv, s) <==> q' != 0.0 && IsQuotient(p', q', s)
  {
    hide Numerator, Denominator, LeadsToVertex, Consistent, IsQuotient;
    if Consistent(x, w, v, fx, fw, fv) {
      forall s ensures LeadsToVertex(x, w, v, fx, fw, fv, s) <==> q' != 0.0 && IsQuotient(p', q', s) {
        StepToVertex(x, w, v, fx, fw, fv, p, q, s);
        SignsChanged(p, q, p', q', s);
      }
    }
  }

  lemma SignsChanged(p: real, q: real, p': real, q': real, s: real)
    requires (p' == -p && q' == q) || (p' == p && q' == -q)
    ensures IsQuotient(p', q', s) <==> q * s == -p
  {
    assert -q * s == -(q * s);
  }

  /** The test of the program on the step p / q, which has to lie between lo and hi. */
  predicate Fails(p: real, q: real, r: real, lo: real, hi: real) {
    Abs(p) >= Abs(q * 0.5 * r) || p <= q * lo || p >= q * hi
  }

  lemma TestOfStep(p: real, q: real, r: real, lo: real, hi: real)
    requires q >= 0.0
    ensures !Fails(p, q, r, lo, hi) <==> q > 0.0 && Abs(p / q) < Abs(r) * 0.5 && lo < p / q < hi
  {
    if q > 0.0 {
      var d := p / q;
      assert p == d * q;
      hide Abs;
      Against(d, lo, q, p, q * lo);
      Against(hi, d, q, q * hi, p);
      AbsOfProduct(d, q);
      HalfOfProduct(q, r, q * 0.5 * r, Abs(r) * 0.5);
      Against(Abs(r) * 0.5, Abs(d), q, Abs(q * 0.5 * r), Abs(p));
    } else {
      assert q * 0.5 * r == 0.0;
    }
  }

  lemma Against(x: real, y: real, q: real, m: real, n: real)
    requires q > 0.0 && m == x * q && n == y * q
    ensures x > y <==> m > n
  {
    Ordered(x, y, q);
  }

  lemma HalfOfProduct(q: real, r: real, z: real, h: real)
    requires q > 0.0 && z == q * 0.5 * r && h == Abs(r) * 0.5
    ensures Abs(z) == h * q
  {
    var y := r * 0.5;
    assert z == y * q;
    AbsOfProduct(y, q);
    assert Abs(y) == h;
  }

  lemma Ordered(x: real, y: real, q: real)
    requires q > 0.0
    ensures x > y <==> x * q > y * q
    ensures x * q == q * x && y * q == q * y
  {
    if x > y {
      Scaled(x - y, q);
      assert (x - y) * q == x * q - y * q;
    } else {
      NotMore(x, y, q);
    }
  }

  lemma AbsOfProduct(x: real, q: real)
    requires q > 0.0
    ensures Abs(x * q) == Abs(x) * q
  {
    if x < 0.0 {
      Scaled(-x, q);
      assert -x * q == -(x * q);
    } else if x > 0.0 {
      Scaled(x, q);
    }
  }

  lemma GoldenIsSafe(a: real, b: real, x: real, c: real, tol1: real, e: real, d: real)
    requires 0.0 < c < 0.5 && tol1 > 0.0 && a < x < b && e == LongerSide(a, b, x) && d == c * e
    requires x - a > 2.0 * tol1 || b - x > 2.0 * tol1
    ensures d > 0.0 ==> x + d <= b - tol1 && x + tol1 <= b - tol1
    ensures d <= 0.0 ==> x + d >= a + tol1 && x - tol1 >= a + tol1
  {
    GoldenStep(c, e, tol1);
  }

  lemma KeptIsSafe(a: real, b: real, x: real, tol1: real, s: real)
    requires tol1 > 0.0 && a < x < b && a - x < s < b - x
    requires x - a > 2.0 * tol1 || b - x > 2.0 * tol1
    ensures var d := KeptFromEnds(a, b, x, tol1, s);
      && (d > 0.0 ==> x + d <= b - tol1 && x + tol1 <= b - tol1)
      && (d <= 0.0 ==> x + d >= a + tol1 && x - tol1 >= a + tol1)
  {
  }

  /** The step d from x. */
  method ChooseStep(a: real, b: real, x: real, p: real, q: real, r: real, e0: real, c: real, tol1: real)
    returns (d: real, e: real)
    requires 0.0 < c < 0.5 && tol1 > 0.0 && q >= 0.0 && a < x < b
    requires x - a > 2.0 * tol1 || b - x > 2.0 * tol1
    ensures d > 0.0 ==> x + d <= b - tol1 && x + tol1 <= b - tol1
    ensures d <= 0.0 ==> x + d >= a + tol1 && x - tol1 >= a + tol1
    ensures if q > 0.0 && Acceptable(a, b, x, p / q, r) then e == e0 && d == KeptFromEnds(a, b, x, tol1, p / q)
      else e == LongerSide(a, b, x) && d == c * e
  {
    hide Fails;
    e := e0;
    var xm := (a + b) * 0.5;
    var t2 := tol1 * 2.0;
    TestOfStep(p, q, r, a - x, b - x);
    if Fails(p, q, r, a - x, b - x) {
      if x < xm {
        e := b - x;
      } else {
        e := a - x;
      }
      d := c * e;
      GoldenIsSafe(a, b, x, c, tol1, e, d);
    } else {
      d := p / q;
      KeptIsSafe(a, b, x, tol1, d);
      var u := x + d;
      if u - a < t2 || b - u < t2 {
        d := tol1;
        if x >= xm {
          d := -d;
        }
      }
    }
  }

  /**
   * The next point of evaluation is safe. It is the vertex of the parabola through the last points if that step is
   * taken, and otherwise the golden point of the longer side; in both cases not too close to x or to the ends.
   */
  method NextPoint(a: real, b: real, x: real, w: real, v: real, fx: real, fw: real, fv: real, e0: real, d0: real,
                   c: real, tol1: real)
    returns (u: real, d: real, e: real)
    requires 0.0 < c < 0.5 && tol1 > 0.0 && a < x < b
    requires x - a > 2.0 * tol1 || b - x > 2.0 * tol1
    ensures Safe(a, b, x, tol1, u)
    ensures u == x + if Abs(d) >= tol1 then d else if d > 0.0 then tol1 else -tol1
    ensures Consistent(x, w, v, fx, fw, fv) ==> StepChosen(a, b, x, w, v, fx, fw, fv, e0, d0, c, tol1, d, e)
  {
    var p, q, r, e1 := FitParabola(x, w, v, fx, fw, fv, e0, d0, tol1);
    d, e := ChooseStep(a, b, x, p, q, r, e1, c, tol1);
    StepIsChosen(a, b, x, w, v, fx, fw, fv, e0, d0, c, tol1, p, q, r, e1, d, e);
    if Abs(d) >= tol1 {
      u := x + d;
    } else if d > 0.0 {
      u := x + tol1;
    } else {
      u := x - tol1;
    }
  }

  /** The step d and the one that will be compared with the next but one, from those before, d0 and e0. */
  ghost predicate StepChosen(a: real, b: real, x: real, w: real, v: real, fx: real, fw: real, fv: real, e0: real,
                             d0: real, c: real, tol1: real, d: real, e: real)
  {
    && (forall s :: Parabolic(a, b, x, w, v, fx, fw, fv, e0, tol1, s) ==>
      e == d0 && d == KeptFromEnds(a, b, x, tol1, s))
    && ((forall s :: !Parabolic(a, b, x, w, v, fx, fw, fv, e0, tol1, s)) ==>
      e == LongerSide(a, b, x) && d == c * e)
  }

  lemma StepIsChosen(a: real, b: real, x: real, w: real, v: real, fx: real, fw: real, fv: real, e0: real, d0: real,
                     c: real, tol1: real, p: real, q: real, r: real, e1: real, d: real, e: real)
    requires tol1 > 0.0 && q >= 0.0
    requires if Abs(e0) > tol1 then r == e0 && e1 == d0 else p == q == r == 0.0 && e1 == e0
    requires Abs(e0) > tol1 && Consistent(x, w, v, fx, fw, fv) ==>
      forall s :: LeadsToVertex(x, w, v, fx, fw, fv, s) <==> q > 0.0 && IsQuotient(p, q, s)
    requires if q > 0.0 && Acceptable(a, b, x, p / q, r) then e == e1 && d == KeptFromEnds(a, b, x, tol1, p / q)
      else e == LongerSide(a, b, x) && d == c * e
    ensures Consistent(x, w, v, fx, fw, fv) ==> StepChosen(a, b, x, w, v, fx, fw, fv, e0, d0, c, tol1, d, e)
  {
    hide LeadsToVertex, KeptFromEnds, LongerSide, Acceptable, Consistent, IsQuotient;
    if Consistent(x, w, v, fx, fw, fv) && Abs(e0) > tol1 {
      forall s ensures LeadsToVertex(x, w, v, fx, fw, fv, s) <==> q > 0.0 && s == p / q {
        if q > 0.0 {
          OnlyQuotient(p, q, s);
        }
      }
      if q > 0.0 && Acceptable(a, b, x, p / q, e0) {
        assert Parabolic(a, b, x, w, v, fx, fw, fv, e0, tol1, p / q);
      }
    }
  }

  lemma OnlyQuotient(p: real, q: real, s: real)
    requires q > 0.0
    ensures IsQuotient(p, q, s) <==> s == p / q
  {
    assert q * (p / q) == p;
    Ordered(s, p / q, q);
    Ordered(p / q, s, q);
  }

  // ----- the state of the search -----

  /** The bracket, the best point and the two points before it, with their values. */
  datatype State = State(a: real, b: real, v: real, w: real, x: real, fv: real, fw: real, fx: real)

  ghost predicate Searching(f: real -> real, lo: real, hi: real, tol: real, st: State, evals: seq<Evaluation>) {
    && lo <= st.a < st.x < st.b <= hi
    && st.fx == f(st.x) && st.fw == f(st.w) && st.fv == f(st.v)
    && Best(f, evals, st.a, st.b, st.x) && Apart(evals, tol)
    && (forall i :: 0 <= i < |evals| ==> lo < evals[i].at < hi)
  }

  /** What the search knows about the minimum of a unimodal function. */
  ghost predicate Brackets(f: real -> real, lo: real, hi: real, st: State) {
    forall m :: Unimodal(f, lo, hi, m) ==> st.a <= m <= st.b
  }

  /** The update of the bracket and of the three points after f has been evaluated at u. */
  function Next(st: State, u: real, fu: real): State {
    if fu <= st.fx then
      State(if u < st.x then st.a else st.x, if u < st.x then st.x else st.b, st.w, st.x, u, st.fw, st.fx, fu)
    else
      var a, b := if u < st.x then u else st.a, if u < st.x then st.b else u;
      if fu <= st.fw || st.w == st.x then State(a, b, st.w, u, st.x, st.fw, fu, st.fx)
      else if fu <= st.fv || st.v == st.x || st.v == st.w then State(a, b, u, st.w, st.x, fu, st.fw, st.fx)
      else State(a, b, st.v, st.w, st.x, st.fv, st.fw, st.fx)
  }

  /** The same update as the program makes it. */
  method UpdateState(st: State, u: real, fu: real) returns (st': State)
    ensures st' == Next(st, u, fu)
  {
    var a, b, v, w, x, fv, fw, fx := st.a, st.b, st.v, st.w, st.x, st.fv, st.fw, st.fx;
    if fu <= fx {
      if u < x {
        b := x;
      } else {
        a := x;
      }
      v, w, x := w, x, u;
      fv, fw, fx := fw, fx, fu;
    } else {
      if u < x {
        a := u;
      } else {
        b := u;
      }
      if fu <= fw || w == x {
        v, fv := w, fw;
        w, fw := u, fu;
      } else if fu <= fv || v == x || v == w {
        v, fv := u, fu;
      }
    }
    return State(a, b, v, w, x, fv, fw, fx);
  }

  /** One evaluation at a safe point keeps everything, and shortens the bracket by a third of tol. */
  lemma StepKeeps(f: real -> real, lo: real, hi: real, tol: real, st: State, evals: seq<Evaluation>, u: real)
    requires tol > 0.0 && Searching(f, lo, hi, tol, st, evals)
    requires Safe(st.a, st.b, st.x, Spacing(st.x, tol), u)
    requires st.x - st.a >= tol / 3.0 && st.b - st.x >= tol / 3.0
    ensures Searching(f, lo, hi, tol, Next(st, u, f(u)), evals + [Evaluation(u, st.x)])
    ensures var n := Next(st, u, f(u)); n.x - n.a >= tol / 3.0 && n.b - n.x >= tol / 3.0
    ensures var n := Next(st, u, f(u)); n.b - n.a <= st.b - st.a - tol / 3.0
  {
    SpacingPositive(st.x, tol);
    StaysApart(f, evals, st.a, st.b, st.x, tol, u);
    StaysBest(f, evals, st, u);
    hide Best, Apart, Spacing;
  }

  lemma StaysApart(f: real -> real, evals: seq<Evaluation>, a: real, b: real, x: real, tol: real, u: real)
    requires Best(f, evals, a, b, x) && Apart(evals, tol) && Safe(a, b, x, Spacing(x, tol), u)
    ensures Apart(evals + [Evaluation(u, x)], tol)
  {
    hide Spacing;
    var es := evals + [Evaluation(u, x)];
    forall i | 0 <= i < |evals| ensures Abs(es[i].at - u) >= Spacing(x, tol) {
      assert evals[i].at == x || evals[i].at <= a || evals[i].at >= b;
    }
  }

  lemma StaysBest(f: real -> real, evals: seq<Evaluation>, st: State, u: real)
    requires Best(f, evals, st.a, st.b, st.x) && st.a < st.x < st.b && st.a < u < st.b && u != st.x && st.fx == f(st.x)
    ensures var n := Next(st, u, f(u)); Best(f, evals + [Evaluation(u, st.x)], n.a, n.b, n.x)
  {
    var n, es := Next(st, u, f(u)), evals + [Evaluation(u, st.x)];
    assert es[|evals|].at == u;
    var k :| 0 <= k < |evals| && evals[k].at == st.x;
    assert es[k].at == st.x;
    forall i | 0 <= i < |es|
      ensures f(n.x) <= f(es[i].at)
      ensures es[i].at == n.x || es[i].at <= n.a || es[i].at >= n.b
    {
      if i < |evals| {
        assert es[i] == evals[i];
      }
    }
  }

  /** The bracket keeps the minimum of a unimodal function. */
  lemma StepBrackets(f: real -> real, lo: real, hi: real, st: State, u: real)
    requires lo <= st.a < st.x < st.b <= hi && st.a < u < st.b && u != st.x && st.fx == f(st.x)
    requires Brackets(f, lo, hi, st)
    ensures Brackets(f, lo, hi, Next(st, u, f(u)))
  {
    forall m | Unimodal(f, lo, hi, m) ensures Next(st, u, f(u)).a <= m <= Next(st, u, f(u)).b {
      assert st.a <= m <= st.b;
      var p, q := if u < st.x then u else st.x, if u < st.x then st.x else u;
      assert q <= m ==> f(p) > f(q);
      assert m <= p ==> f(p) < f(q);
    }
  }

  // ----- which points are remembered -----

  ghost predicate Met(evals: seq<Evaluation>, x: real) {
    exists i :: 0 <= i < |evals| && evals[i].at == x
  }

  /** Of the points of evaluation other than x and w, z has the least value. */
  ghost predicate NextBest(f: real -> real, evals: seq<Evaluation>, x: real, w: real, z: real) {
    && Met(evals, z) && z != x && z != w
    && forall i :: 0 <= i < |evals| && evals[i].at != x && evals[i].at != w ==> f(z) <= f(evals[i].at)
  }

  /** The ends of the bracket are points of evaluation or the given ends; w is second best and v third best. */
  ghost predicate Remembered(f: real -> real, lo: real, hi: real, st: State, evals: seq<Evaluation>) {
    && (st.a == lo || Met(evals, st.a)) && (st.b == hi || Met(evals, st.b)) && Met(evals, st.x)
    && (if |evals| <= 1 then st.w == st.x else NextBest(f, evals, st.x, st.x, st.w))
    && (if |evals| <= 2 then st.v == st.x || st.v == st.w else NextBest(f, evals, st.x, st.w, st.v))
    && forall i :: 0 <= i < |evals| ==> f(st.x) <= f(evals[i].at)
  }

  lemma MetMore(evals: seq<Evaluation>, e: Evaluation, x: real)
    ensures Met(evals + [e], x) <==> Met(evals, x) || x == e.at
  {
    var es := evals + [e];
    assert es[|evals|] == e;
    if Met(evals, x) {
      var i :| 0 <= i < |evals| && evals[i].at == x;
      assert es[i].at == x;
    }
  }

  /** z stays next best if the new point is excluded or no better, or is next best itself if it is no worse. */
  lemma NextBestMore(f: real -> real, evals: seq<Evaluation>, e: Evaluation, x: real, w: real, z: real)
    requires NextBest(f, evals, x, w, z)
    ensures e.at == x || e.at == w || f(z) <= f(e.at) ==> NextBest(f, evals + [e], x, w, z)
    ensures e.at != x && e.at != w && f(e.at) <= f(z) ==> NextBest(f, evals + [e], x, w, e.at)
  {
    MetMore(evals, e, z);
    MetMore(evals, e, e.at);
  }

  /** A new point u that is no worse than all others. */
  lemma NewFirst(f: real -> real, evals: seq<Evaluation>, e: Evaluation, x: real)
    requires Met(evals, x) && !Met(evals, e.at) && forall i :: 0 <= i < |evals| ==> f(x) <= f(evals[i].at)
    ensures NextBest(f, evals + [e], e.at, e.at, x)
  {
    MetMore(evals, e, x);
    assert x != e.at;
  }

  lemma NewFirstSecond(f: real -> real, evals: seq<Evaluation>, e: Evaluation, x: real, w: real)
    requires NextBest(f, evals, x, x, w) && !Met(evals, e.at)
    ensures NextBest(f, evals + [e], e.at, x, w)
  {
    MetMore(evals, e, w);
    assert w != e.at;
  }

  /** When only x has been evaluated. */
  lemma SecondPoint(f: real -> real, evals: seq<Evaluation>, e: Evaluation, x: real)
    requires |evals| == 1 && Met(evals, x) && !Met(evals, e.at)
    ensures NextBest(f, evals + [e], x, x, e.at)
  {
    MetMore(evals, e, e.at);
    assert x != e.at;
  }

  lemma ThirdPoint(f: real -> real, evals: seq<Evaluation>, e: Evaluation, x: real, w: real)
    requires |evals| == 2 && NextBest(f, evals, x, x, w) && Met(evals, x) && !Met(evals, e.at)
    ensures NextBest(f, evals + [e], x, w, e.at) && NextBest(f, evals + [e], x, e.at, w)
  {
    MetMore(evals, e, e.at);
    MetMore(evals, e, w);
    assert x != e.at && w != e.at;
    assert forall i :: 0 <= i < 2 ==> evals[i].at == x || evals[i].at == w;
  }

  /** The new point second, the old second third. */
  lemma NewSecond(f: real -> real, evals: seq<Evaluation>, e: Evaluation, x: real, w: real)
    requires NextBest(f, evals, x, x, w) && Met(evals, x) && !Met(evals, e.at)
    ensures NextBest(f, evals + [e], x, e.at, w)
  {
    MetMore(evals, e, w);
    assert x != e.at && w != e.at;
  }

  /** An evaluation keeps this. */
  lemma StillRemembered(f: real -> real, lo: real, hi: real, st: State, evals: seq<Evaluation>, u: real)
    requires Remembered(f, lo, hi, st, evals) && !Met(evals, u)
    requires st.fx == f(st.x) && st.fw == f(st.w) && st.fv == f(st.v)
    ensures Remembered(f, lo, hi, Next(st, u, f(u)), evals + [Evaluation(u, st.x)])
  {
    var n, e := Next(st, u, f(u)), Evaluation(u, st.x);
    MetMore(evals, e, st.a);
    MetMore(evals, e, st.b);
    MetMore(evals, e, st.x);
    MetMore(evals, e, u);
    BestOfMore(f, evals, e, st.x);
    if f(u) <= st.fx {
      NewFirst(f, evals, e, st.x);
      if |evals| >= 2 {
        NewFirstSecond(f, evals, e, st.x, st.w);
      }
    } else {
      KeepsBest(f, lo, hi, st, evals, u);
    }
  }

  lemma BestOfMore(f: real -> real, evals: seq<Evaluation>, e: Evaluation, x: real)
    requires forall i :: 0 <= i < |evals| ==> f(x) <= f(evals[i].at)
    ensures f(x) <= f(e.at) ==> forall i :: 0 <= i < |evals + [e]| ==> f(x) <= f((evals + [e])[i].at)
    ensures f(e.at) <= f(x) ==> forall i :: 0 <= i < |evals + [e]| ==> f(e.at) <= f((evals + [e])[i].at)
  {
  }

  /** The same if the new point is worse than x. */
  lemma KeepsBest(f: real -> real, lo: real, hi: real, st: State, evals: seq<Evaluation>, u: real)
    requires Remembered(f, lo, hi, st, evals) && !Met(evals, u) && f(u) > st.fx
    requires st.fx == f(st.x) && st.fw == f(st.w) && st.fv == f(st.v)
    ensures var n, es := Next(st, u, f(u)), evals + [Evaluation(u, st.x)];
      && (if |es| <= 1 then n.w == n.x else NextBest(f, es, n.x, n.x, n.w))
      && (if |es| <= 2 then n.v == n.x || n.v == n.w else NextBest(f, es, n.x, n.w, n.v))
  {
    var e := Evaluation(u, st.x);
    if |evals| <= 1 {
      assert |evals| == 1;
      SecondPoint(f, evals, e, st.x);
    } else {
      NextBestMore(f, evals, e, st.x, st.x, st.w);
      NewSecond(f, evals, e, st.x, st.w);
      if |evals| == 2 {
        ThirdPoint(f, evals, e, st.x, st.w);
      } else {
        NextBestMore(f, evals, e, st.x, st.w, st.v);
      }
    }
  }

  lemma NotMet(f: real -> real, evals: seq<Evaluation>, st: State, tol1: real, u: real)
    requires Best(f, evals, st.a, st.b, st.x) && tol1 > 0.0 && Safe(st.a, st.b, st.x, tol1, u)
    ensures !Met(evals, u)
  {
  }

  // ----- the whole run -----

  /** Where a pass of the main loop begins: the state, and the steps d and e before it. */
  datatype Position = Position(st: State, d: real, e: real)

  /** The stopping criterion. */
  ghost predicate Stops(st: State, tol: real) {
    Abs(st.x - (st.a + st.b) * 0.5) <= 2.0 * Spacing(st.x, tol) - (st.b - st.a) * 0.5
  }

  /** A pass from p to q that evaluates f as it should. */
  ghost predicate MovesRight(f: real -> real, p: Position, q: Position, ev: Evaluation, tol: real, c: real) {
    var st, tol1 := p.st, Spacing(p.st.x, tol);
    && !Stops(st, tol)
    && StepChosen(st.a, st.b, st.x, st.w, st.v, st.fx, st.fw, st.fv, p.e, p.d, c, tol1, q.d, q.e)
    && ev == Evaluation(st.x + (if Abs(q.d) >= tol1 then q.d else if q.d > 0.0 then tol1 else -tol1), st.x)
    && q.st == Next(st, ev.at, f(ev.at))
  }

  /** After i passes the best points so far are remembered. */
  ghost predicate RemembersAt(f: real -> real, ax: real, bx: real, path: seq<Position>, evals: seq<Evaluation>, i: nat)
    requires i < |path| <= |evals|
  {
    Remembered(f, ax, bx, path[i].st, evals[..i + 1])
  }

  /** The passes up to the end of the path, and the points evaluated. */
  ghost predicate Walked(f: real -> real, ax: real, bx: real, tol: real, c: real, path: seq<Position>,
                         evals: seq<Evaluation>)
  {
    var x0 := ax + c * (bx - ax);
    && |path| == |evals| >= 1 && evals[0] == Evaluation(x0, x0)
    && path[0] == Position(State(ax, bx, x0, x0, x0, f(x0), f(x0), f(x0)), 0.0, 0.0)
    && (forall i :: 0 <= i < |path| ==> RemembersAt(f, ax, bx, path, evals, i))
    && (forall i :: 0 <= i < |path| - 1 ==> MovesRight(f, path[i], path[i + 1], evals[i + 1], tol, c))
  }

  lemma WalkStarts(f: real -> real, ax: real, bx: real, tol: real, c: real, x0: real)
    requires ax < bx && x0 == ax + c * (bx - ax)
    ensures var st := State(ax, bx, x0, x0, x0, f(x0), f(x0), f(x0));
      Walked(f, ax, bx, tol, c, [Position(st, 0.0, 0.0)], [Evaluation(x0, x0)])
  {
    var evals := [Evaluation(x0, x0)];
    assert evals[0].at == x0;
    assert evals[..1] == evals;
  }

  lemma WalkGoesOn(f: real -> real, ax: real, bx: real, tol: real, c: real, path: seq<Position>, evals: seq<Evaluation>,
                   q: Position, ev: Evaluation)
    requires Walked(f, ax, bx, tol, c, path, evals) && MovesRight(f, path[|path| - 1], q, ev, tol, c)
    requires Remembered(f, ax, bx, q.st, evals + [ev])
    ensures Walked(f, ax, bx, tol, c, path + [q], evals + [ev])
  {
    hide MovesRight, Remembered, Next;
    var ps, es := path + [q], evals + [ev];
    forall i | 0 <= i < |ps| ensures RemembersAt(f, ax, bx, ps, es, i) {
      if i < |path| {
        assert RemembersAt(f, ax, bx, path, evals, i);
        assert es[..i + 1] == evals[..i + 1];
      } else {
        assert es[..i + 1] == es;
      }
    }
    forall i | 0 <= i < |ps| - 1 ensures MovesRight(f, ps[i], ps[i + 1], es[i + 1], tol, c) {
      if i < |path| - 1 {
        assert MovesRight(f, path[i], path[i + 1], evals[i + 1], tol, c);
      }
    }
  }

  /** The result x with the points of evaluation, in order. */
  ghost predicate Located(f: real -> real, lo: real, hi: real, tol: real, x: real, evals: seq<Evaluation>) {
    && (forall i :: 0 <= i < |evals| ==> lo < evals[i].at < hi && f(x) <= f(evals[i].at))
    && (exists i :: 0 <= i < |evals| && evals[i].at == x)
    && Apart(evals, tol)
    && (forall m :: Unimodal(f, lo, hi, m) ==> Abs(x - m) <= 2.0 * Spacing(x, tol))
    && (|evals| as real - 1.0) * tol <= 3.0 * (hi - lo)
  }

  /** The first point of evaluation. */
  ghost predicate IsFirstPoint(x0: real, ax: real, bx: real, c: real) {
    x0 == ax + c * (bx - ax)
  }

  /** Where the first point lies. */
  lemma FirstPoint(x0: real, ax: real, bx: real, c: real)
    requires ax < bx && IsGolden(c) && IsFirstPoint(x0, ax, bx, c)
    ensures (bx - ax) / 3.0 <= x0 - ax < (bx - ax) / 2.0
  {
    GoldenBound(c);
    BelowHalf(c);
    hide IsGolden;
    FirstPart(c, bx - ax, x0 - ax);
  }

  lemma BelowHalf(c: real)
    requires IsGolden(c)
    ensures c < 0.5
  {
  }

  lemma FirstPart(c: real, l: real, m: real)
    requires 1.0 / 3.0 <= c < 0.5 && l > 0.0 && m == c * l
    ensures l / 3.0 <= m < l / 2.0
  {
    Scaled(0.5 - c, l);
    assert (0.5 - c) * l == 0.5 * l - c * l;
    NotMore(1.0 / 3.0, c, l);
  }

  lemma GoldenBound(c: real)
    requires IsGolden(c)
    ensures c >= 1.0 / 3.0
  {
    var d := 3.0 - 2.0 * c;
    assert (3.0 * d - 7.0) * (3.0 * d + 7.0) == 9.0 * (d * d) - 49.0;
    if 3.0 * d > 7.0 {
      Scaled(3.0 * d - 7.0, 3.0 * d + 7.0);
    }
  }

  /** The best point keeps a third of tol from both ends. */
  ghost predicate FarEnough(st: State, tol: real) {
    st.x - st.a >= tol / 3.0 && st.b - st.x >= tol / 3.0
  }

  function Thirds(k: int, tol: real): real {
    k as real * (tol / 3.0)
  }

  /** How often the bracket can lose a third of tol. */
  function Budget(length: real, tol: real): int
    requires tol > 0.0
  {
    (length / (tol / 3.0)).Floor
  }

  lemma BudgetFalls(length: real, length': real, tol: real)
    requires tol > 0.0 && 0.0 <= length' <= length - tol / 3.0
    ensures 0 <= Budget(length', tol) < Budget(length, tol)
  {
    var t := tol / 3.0;
    var q, q' := length / t, length' / t;
    assert q * t == length && q' * t == length';
    assert (q - 1.0) * t == q * t - t && (q' - (q - 1.0)) * t == q' * t - (q - 1.0) * t;
    assert -q' * t == -(q' * t);
    if q' > q - 1.0 {
      Scaled(q' - (q - 1.0), t);
    }
    if q' < 0.0 {
      Scaled(-q', t);
    }
  }

  lemma Starts(f: real -> real, ax: real, bx: real, tol: real, x0: real, st: State, evals: seq<Evaluation>)
    requires ax < x0 < bx
    requires st == State(ax, bx, x0, x0, x0, f(x0), f(x0), f(x0)) && evals == [Evaluation(x0, x0)]
    ensures Searching(f, ax, bx, tol, st, evals) && Brackets(f, ax, bx, st)
  {
    hide Spacing;
    assert evals[0].at == x0;
  }

  /** The first point is not too close to an end if the search goes on. */
  lemma FirstIsFar(x0: real, ax: real, bx: real, c: real, tol1: real)
    requires ax < bx && IsGolden(c) && tol1 > 0.0 && IsFirstPoint(x0, ax, bx, c)
    ensures x0 - ax > 2.0 * tol1 || bx - x0 > 2.0 * tol1 ==> x0 - ax >= tol1 && bx - x0 >= tol1
  {
    hide IsGolden, IsFirstPoint;
    FirstPoint(x0, ax, bx, c);
  }

  /** If the stopping criterion fails, one side of the bracket is long, and neither is too short. */
  lemma Continues(f: real -> real, ax: real, bx: real, tol: real, c: real, st: State, evals: seq<Evaluation>)
    requires ax < bx && tol > 0.0 && IsGolden(c) && Searching(f, ax, bx, tol, st, evals)
    requires FarEnough(st, tol) || (st.a == ax && st.b == bx && IsFirstPoint(st.x, ax, bx, c))
    requires Abs(st.x - (st.a + st.b) * 0.5) > 2.0 * Spacing(st.x, tol) - (st.b - st.a) * 0.5
    ensures st.a < st.x < st.b && FarEnough(st, tol)
    ensures st.x - st.a > 2.0 * Spacing(st.x, tol) || st.b - st.x > 2.0 * Spacing(st.x, tol)
  {
    SpacingPositive(st.x, tol);
    hide IsGolden, IsFirstPoint, Best, Apart;
    if !FarEnough(st, tol) {
      FirstIsFar(st.x, ax, bx, c, Spacing(st.x, tol));
    }
  }

  /** One pass of the main loop after the choice of u. */
  method Advance(f: real -> real, ax: real, bx: real, tol: real, st: State,
                 ghost evals: seq<Evaluation>, u: real, fu: real)
    returns (st': State, ghost evals': seq<Evaluation>)
    requires tol > 0.0 && Searching(f, ax, bx, tol, st, evals) && Brackets(f, ax, bx, st) && FarEnough(st, tol)
    requires Safe(st.a, st.b, st.x, Spacing(st.x, tol), u) && fu == f(u)
    ensures Searching(f, ax, bx, tol, st', evals') && Brackets(f, ax, bx, st') && FarEnough(st', tol)
    ensures evals' == evals + [Evaluation(u, st.x)] && st' == Next(st, u, fu)
    ensures st'.b - st'.a <= st.b - st.a - tol / 3.0
    ensures 0 <= Budget(st'.b - st'.a, tol) < Budget(st.b - st.a, tol)
  {
    SpacingPositive(st.x, tol);
    StepKeeps(f, ax, bx, tol, st, evals, u);
    StepBrackets(f, ax, bx, st, u);
    st' := UpdateState(st, u, fu);
    evals' := evals + [Evaluation(u, st.x)];
    BudgetFalls(st.b - st.a, st'.b - st'.a, tol);
  }

  lemma Ends(f: real -> real, ax: real, bx: real, tol: real, st: State, evals: seq<Evaluation>)
    requires tol > 0.0 && Searching(f, ax, bx, tol, st, evals) && Brackets(f, ax, bx, st)
    requires Abs(st.x - (st.a + st.b) * 0.5) <= 2.0 * Spacing(st.x, tol) - (st.b - st.a) * 0.5
    requires |evals| >= 1 && st.b - st.a <= (bx - ax) - Thirds(|evals| - 1, tol)
    ensures Located(f, ax, bx, tol, st.x, evals)
  {
    hide Unimodal, Apart, Abs, Spacing, Thirds;
    var room := 2.0 * Spacing(st.x, tol);
    forall m | Unimodal(f, ax, bx, m) ensures Abs(st.x - m) <= room {
      Within(st.a, st.b, st.x, room, m);
    }
    FewEvaluations(|evals|, tol, bx - ax, st.b - st.a);
  }

  lemma FewEvaluations(count: int, tol: real, whole: real, rest: real)
    requires rest >= 0.0 && rest <= whole - Thirds(count - 1, tol)
    ensures (count as real - 1.0) * tol <= 3.0 * whole
  {
    hide Thirds;
    ThreeThirds(count, tol);
  }

  lemma Within(a: real, b: real, x: real, room: real, m: real)
    requires a <= m <= b && Abs(x - (a + b) * 0.5) <= room - (b - a) * 0.5
    ensures Abs(x - m) <= room
  {
  }

  lemma ThreeThirds(count: int, tol: real)
    ensures 3.0 * Thirds(count - 1, tol) == (count as real - 1.0) * tol
  {
    var r := count as real - 1.0;
    assert (count - 1) as real == r;
    assert r * (tol / 3.0) * 3.0 == r * tol;
  }

  lemma Known(f: real -> real, ax: real, bx: real, tol: real, st: State, evals: seq<Evaluation>)
    requires Searching(f, ax, bx, tol, st, evals)
    ensures Consistent(st.x, st.w, st.v, st.fx, st.fw, st.fv) && st.a < st.x < st.b
    ensures st.fx == f(st.x) && st.fw == f(st.w) && st.fv == f(st.v) && Best(f, evals, st.a, st.b, st.x)
  {
  }

  /** The state stays as it should be remembered. */
  lemma RememberedOn(f: real -> real, ax: real, bx: real, tol: real, st: State, evals: seq<Evaluation>, u: real)
    requires tol > 0.0 && Searching(f, ax, bx, tol, st, evals) && Safe(st.a, st.b, st.x, Spacing(st.x, tol), u)
    requires Remembered(f, ax, bx, st, evals)
    ensures Remembered(f, ax, bx, Next(st, u, f(u)), evals + [Evaluation(u, st.x)])
  {
    Known(f, ax, bx, tol, st, evals);
    SpacingPositive(st.x, tol);
    NotMet(f, evals, st, Spacing(st.x, tol), u);
    StillRemembered(f, ax, bx, st, evals, u);
  }

  lemma WalkRemembers(f: real -> real, ax: real, bx: real, tol: real, c: real, path: seq<Position>,
                      evals: seq<Evaluation>)
    requires Walked(f, ax, bx, tol, c, path, evals)
    ensures |evals| == |path| >= 1 && Remembered(f, ax, bx, path[|path| - 1].st, evals)
  {
    assert RemembersAt(f, ax, bx, path, evals, |path| - 1);
    assert evals[..|path|] == evals;
  }

  /** One pass of the main loop, if the search does not stop. */
  method Step(ax: real, bx: real, f: real -> real, tol: real, c: real, st: State, d0: real, e0: real,
              ghost path: seq<Position>, ghost evals: seq<Evaluation>)
    returns (st': State, d: real, e: real, ghost path': seq<Position>, ghost evals': seq<Evaluation>)
    requires ax < bx && tol > 0.0 && IsGolden(c) && 0.0 < c < 0.5
    requires Searching(f, ax, bx, tol, st, evals) && Brackets(f, ax, bx, st) && !Stops(st, tol)
    requires FarEnough(st, tol) || (st.a == ax && st.b == bx && IsFirstPoint(st.x, ax, bx, c))
    requires Walked(f, ax, bx, tol, c, path, evals) && path[|path| - 1] == Position(st, d0, e0)
    ensures Searching(f, ax, bx, tol, st', evals') && Brackets(f, ax, bx, st') && FarEnough(st', tol)
    ensures |evals'| == |evals| + 1 && st'.b - st'.a <= st.b - st.a - tol / 3.0
    ensures 0 <= Budget(st'.b - st'.a, tol) < Budget(st.b - st.a, tol)
    ensures Walked(f, ax, bx, tol, c, path', evals') && path'[|path'| - 1] == Position(st', d, e)
  {
    assert |path| >= 1;
    hide IsGolden, Searching, Brackets, Budget, IsFirstPoint, Safe, StepChosen, Remembered, Walked, Consistent, Spacing;
    Continues(f, ax, bx, tol, c, st, evals);
    SpacingPositive(st.x, tol);
    Known(f, ax, bx, tol, st, evals);
    WalkRemembers(f, ax, bx, tol, c, path, evals);
    var u;
    var tol1 := Spacing(st.x, tol);
    u, d, e := NextPoint(st.a, st.b, st.x, st.w, st.v, st.fx, st.fw, st.fv, e0, d0, c, tol1);
    var fu := f(u);
    RememberedOn(f, ax, bx, tol, st, evals, u);
    st', evals' := Advance(f, ax, bx, tol, st, evals, u, fu);
    ghost var q := Position(st', d, e);
    WalkGoesOn(f, ax, bx, tol, c, path, evals, q, Evaluation(u, st.x));
    path' := path + [q];
  }

  /**
   * Brent_fmin. Each point of evaluation is the vertex of the parabola through the three best points so far, or a
   * golden point, as the steps before it decide; the search goes on until the bracket is short.
   */
  method BrentFmin(ax: real, bx: real, f: real -> real, tol: real, c: real)
    returns (x: real, ghost evals: seq<Evaluation>, ghost path: seq<Position>)
    requires ax < bx && tol > 0.0 && IsGolden(c)
    ensures Located(f, ax, bx, tol, x, evals)
    ensures Walked(f, ax, bx, tol, c, path, evals)
    ensures var st := path[|path| - 1].st; Stops(st, tol) && x == st.x
  {
    assert 0.0 < c < 0.5;
    var x0 := ax + c * (bx - ax);
    WalkStarts(f, ax, bx, tol, c, x0);
    assert IsFirstPoint(x0, ax, bx, c);
    hide IsGolden, Searching, Brackets, Located, Thirds, Budget, IsFirstPoint, Safe, Walked, Remembered;
    FirstPoint(x0, ax, bx, c);
    OneMoreThird(1, tol);
    var fx0 := f(x0);
    var st := State(ax, bx, x0, x0, x0, fx0, fx0, fx0);
    var d, e := 0.0, 0.0;
    evals, path := [Evaluation(x0, x0)], [Position(st, 0.0, 0.0)];
    Starts(f, ax, bx, tol, x0, st, evals);
    while true
      invariant Searching(f, ax, bx, tol, st, evals) && Brackets(f, ax, bx, st)
      invariant FarEnough(st, tol) || (st.a == ax && st.b == bx && st.x == x0)
      invariant |evals| >= 1 && st.b - st.a <= (bx - ax) - Thirds(|evals| - 1, tol)
      invariant Walked(f, ax, bx, tol, c, path, evals) && |path| >= 1 && path[|path| - 1] == Position(st, d, e)
      decreases Budget(st.b - st.a, tol)
    {
      var xm := (st.a + st.b) * 0.5;
      var tol1 := EPS * Abs(st.x) + tol / 3.0;
      var t2 := tol1 * 2.0;
      if Abs(st.x - xm) <= t2 - (st.b - st.a) * 0.5 {
        Ends(f, ax, bx, tol, st, evals);
        assert Stops(st, tol);
        return st.x, evals, path;
      }
      OneMoreThird(|evals|, tol);
      st, d, e, path, evals := Step(ax, bx, f, tol, c, st, d, e, path, evals);
    }
  }

  lemma OneMoreThird(k: int, tol: real)
    ensures Thirds(k, tol) == Thirds(k - 1, tol) + tol / 3.0 && Thirds(0, tol) == 0.0
  {
    assert k as real == (k - 1) as real + 1.0;
  }
}
