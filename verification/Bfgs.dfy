/** The BFGS update of a Hessian and the decision whether to make it, as secfac and secunf share them. */
module Bfgs {
  import opened Basics
  import opened Vectors
  import opened Matrices

  /** Flat: the curvature is too small; Agrees: the Hessian already explains y; Undefined: a division by zero. */
  datatype Outcome = Flat | Agrees | Undefined | Updated

  /** One step: s, the change y of the gradient, both gradients, the two tolerances, whether it is the first. */
  datatype Step = Step(s: Vector, y: Vector, g: Vector, gpls: Vector, flat: real, reltol: real, first: bool) {
    predicate Sized(n: nat) {
      |s| == |y| == |g| == |gpls| == n
    }
  }

  /** h times x; the rows of h are h[0], h[1], ... */
  ghost function MatVec(h: Matrix, x: Vector): (r: Vector)
    requires Square(h, |x|)
    ensures |r| == |x| && forall p :: 0 <= p < |x| ==> r[p] == Dot(h[p], x)
  {
    seq(|x|, p requires 0 <= p < |x| => Dot(h[p], x))
  }

  function Tolerance(st: Step, i: nat): real
    requires i < |st.g| && i < |st.gpls|
  {
    Times(st.reltol, Max(Abs(st.g[i]), Abs(st.gpls[i])))
  }

  /** The entries of y and t differ by less than the tolerance everywhere. */
  predicate Close(st: Step, t: Vector)
    requires st.Sized(|t|)
  {
    forall i :: 0 <= i < |t| ==> Abs(st.y[i] - t[i]) < Tolerance(st, i)
  }

  /** x is small against u or against v. */
  predicate BelowEither(x: real, c: real, u: real, v: real) {
    x < Times(c, u) || x < Times(c, v)
  }

  /** Close means that everywhere the difference is small against one gradient or the other. */
  lemma CloseToEither(st: Step, t: Vector)
    requires st.Sized(|t|)
    ensures Close(st, t) <==>
      forall i :: 0 <= i < |t| ==> BelowEither(Abs(st.y[i] - t[i]), st.reltol, Abs(st.g[i]), Abs(st.gpls[i]))
  {
    forall i | 0 <= i < |t|
      ensures Abs(st.y[i] - t[i]) < Tolerance(st, i) <==>
        BelowEither(Abs(st.y[i] - t[i]), st.reltol, Abs(st.g[i]), Abs(st.gpls[i]))
    {
      BelowLarger(Abs(st.y[i] - t[i]), st.reltol, Abs(st.g[i]), Abs(st.gpls[i]));
    }
  }

  lemma BelowLarger(x: real, c: real, u: real, v: real)
    requires x >= 0.0 && u >= 0.0 && v >= 0.0
    ensures x < Times(c, Max(u, v)) <==> BelowEither(x, c, u, v)
  {
    if u <= v {
      ProductsInOrder(c, u, v);
    } else {
      ProductsInOrder(c, v, u);
    }
  }

  lemma ProductsInOrder(c: real, u: real, v: real)
    requires 0.0 <= u <= v
    ensures if c >= 0.0 then Times(c, u) <= Times(c, v) else Times(c, u) <= 0.0 && Times(c, v) <= 0.0
  {
    assert Times(c, v) - Times(c, u) == c * (v - u);
  }

  /** The factor by which the Hessian is rescaled before the first update, given den2 = s'hs. */
  function Gamma(st: Step, den2: real): real
    requires |st.s| == |st.y|
  {
    if st.first && den2 != 0.0 then Dot(st.s, st.y) / den2 else 1.0
  }

  /** What happens, given t = hs and den2 = s'hs. */
  ghost function Decide(st: Step, t: Vector, den2: real): Outcome
    requires st.Sized(|t|)
  {
    if Dot(st.s, st.y) < st.flat then Flat
    else if st.first && den2 == 0.0 then Undefined
    else if Close(st, Scaled(Gamma(st, den2), t)) then Agrees
    else if Dot(st.s, st.y) == 0.0 || den2 == 0.0 then Undefined
    else Updated
  }

  ghost function ScaledMatrix(c: real, h: Matrix, n: nat): (r: Matrix)
    requires Square(h, n)
    ensures Square(r, n)
    ensures forall p :: 0 <= p < n ==> r[p] == Scaled(c, h[p])
  {
    seq(n, p requires 0 <= p < n => Scaled(c, h[p]))
  }

  function UpdatedEntry(h: real, yp: real, yq: real, tp: real, tq: real, den1: real, den2: real): real
    requires den1 != 0.0 && den2 != 0.0
  {
    h + yp * yq / den1 - tp * tq / den2
  }

  /** h + yy'/y's - hss'h/s'hs. */
  ghost function Update(h: Matrix, s: Vector, y: Vector): (r: Matrix)
    requires Square(h, |s|) && |y| == |s| && Dot(s, y) != 0.0 && Dot(s, MatVec(h, s)) != 0.0
    ensures Square(r, |s|)
    ensures forall p, q :: 0 <= p < |s| && 0 <= q < |s| ==>
      r[p][q] == UpdatedEntry(h[p][q], y[p], y[q], MatVec(h, s)[p], MatVec(h, s)[q], Dot(s, y), Dot(s, MatVec(h, s)))
  {
    var t := MatVec(h, s);
    seq(|s|, p requires 0 <= p < |s| => seq(|s|, q requires 0 <= q < |s| =>
      UpdatedEntry(h[p][q], y[p], y[q], t[p], t[q], Dot(s, y), Dot(s, t))))
  }

  /** The Hessian after the step. */
  ghost function Next(st: Step, h: Matrix): (r: Matrix)
    requires st.Sized(|h|) && Square(h, |h|)
    ensures Square(r, |h|)
  {
    var t := MatVec(h, st.s);
    var den2 := Dot(st.s, t);
    match Decide(st, t, den2)
    case Flat => h
    case Agrees => ScaledMatrix(Gamma(st, den2), h, |h|)
    case Undefined => h
    case Updated => Rescaled(st, h); Update(ScaledMatrix(Gamma(st, den2), h, |h|), st.s, st.y)
  }

  /** Rescaling h rescales hs and s'hs, and keeps them from vanishing. */
  lemma Rescaled(st: Step, h: Matrix)
    requires st.Sized(|h|) && Square(h, |h|)
    ensures var den2, c := Dot(st.s, MatVec(h, st.s)), Gamma(st, Dot(st.s, MatVec(h, st.s)));
      && MatVec(ScaledMatrix(c, h, |h|), st.s) == Scaled(c, MatVec(h, st.s))
      && Dot(st.s, MatVec(ScaledMatrix(c, h, |h|), st.s)) == Times(c, den2)
      && (den2 != 0.0 && Dot(st.s, st.y) != 0.0 ==> Times(c, den2) != 0.0)
      && (den2 != 0.0 && st.first ==> Times(c, den2) == Dot(st.s, st.y))
  {
    hide Dot, Times;
    var t := MatVec(h, st.s);
    var den2 := Dot(st.s, t);
    var c := Gamma(st, den2);
    var h' := ScaledMatrix(c, h, |h|);
    forall p | 0 <= p < |h| ensures MatVec(h', st.s)[p] == Scaled(c, t)[p] {
      DotScale(c, h[p], st.s);
    }
    DotScale(c, st.s, t);
    ScaleBack(c, den2, Dot(st.s, st.y));
  }

  lemma ScaleBack(c: real, den2: real, den1: real)
    ensures c * den2 == Times(c, den2)
    ensures den2 != 0.0 && c == den1 / den2 ==> Times(c, den2) == den1
    ensures c == 1.0 ==> Times(c, den2) == den2
  {
  }

  /** The secant equation: the updated Hessian takes s to y. */
  lemma Secant(h: Matrix, s: Vector, y: Vector)
    requires Square(h, |s|) && |y| == |s| && Dot(s, y) != 0.0 && Dot(s, MatVec(h, s)) != 0.0
    ensures MatVec(Update(h, s, y), s) == y
  {
    var t, r := MatVec(h, s), Update(h, s, y);
    forall p | 0 <= p < |s| ensures Dot(r[p], s) == y[p] {
      SecantRow(r[p], h[p], y, t, s, y[p], t[p], Dot(s, y), Dot(s, t), |s|);
      DotSymmetric(s, y);
      DotSymmetric(s, t);
      Cancel(y[p], Dot(s, y));
      Cancel(t[p], Dot(s, t));
    }
  }

  /** The Hessian after a step that is not skipped takes s to y, rescaled before or not. */
  lemma NextIsSecant(st: Step, h: Matrix)
    requires st.Sized(|h|) && Square(h, |h|)
    requires Decide(st, MatVec(h, st.s), Dot(st.s, MatVec(h, st.s))) == Updated
    ensures MatVec(Next(st, h), st.s) == st.y
  {
    hide Dot, Times, MatVec, Close, Update, ScaledMatrix;
    Rescaled(st, h);
    Secant(ScaledMatrix(Gamma(st, Dot(st.s, MatVec(h, st.s))), h, |h|), st.s, st.y);
  }

  /** A row of the update, times s. */
  lemma {:induction false} SecantRow(r: Vector, h: Vector, y: Vector, t: Vector, s: Vector, yp: real, tp: real,
                                     den1: real, den2: real, k: nat)
    requires |r| == |h| == |y| == |t| == |s| && k <= |s| && den1 != 0.0 && den2 != 0.0
    requires forall q :: 0 <= q < |s| ==> r[q] == UpdatedEntry(h[q], yp, y[q], tp, t[q], den1, den2)
    ensures DotTo(r, s, k) == DotTo(h, s, k) + Times(yp, DotTo(y, s, k)) / den1 - Times(tp, DotTo(t, s, k)) / den2
  {
    hide UpdatedEntry;
    if k == 0 {
      Nothing(yp, den1);
      Nothing(tp, den2);
    } else {
      SecantRow(r, h, y, t, s, yp, tp, den1, den2, k - 1);
      hide Times;
      SecantTerm(h[k - 1], yp, y[k - 1], tp, t[k - 1], den1, den2, s[k - 1], DotTo(y, s, k - 1), DotTo(t, s, k - 1));
    }
  }

  lemma Nothing(x: real, d: real)
    requires d != 0.0
    ensures Times(x, 0.0) / d == 0.0
  {
  }

  lemma SecantTerm(h: real, yp: real, yq: real, tp: real, tq: real, den1: real, den2: real, s: real, a: real, b: real)
    requires den1 != 0.0 && den2 != 0.0
    ensures Times(UpdatedEntry(h, yp, yq, tp, tq, den1, den2), s) + Times(yp, a) / den1 - Times(tp, b) / den2 ==
            Times(h, s) + Times(yp, a + Times(yq, s)) / den1 - Times(tp, b + Times(tq, s)) / den2
  {
    Part(yp, yq, s, a, den1);
    Part(tp, tq, s, b, den2);
    var u, v := yp * yq / den1, tp * tq / den2;
    assert (h + u - v) * s == h * s + u * s - v * s;
  }

  lemma Part(p: real, q: real, s: real, a: real, d: real)
    requires d != 0.0
    ensures Times(p, a + Times(q, s)) / d == Times(p, a) / d + p * q / d * s
  {
    assert p * (a + q * s) == p * a + (p * q) * s;
    QuotientOfSum(p * a, (p * q) * s, d);
    QuotientOfProduct(p * q, s, d);
  }

  lemma QuotientOfSum(a: real, b: real, d: real)
    requires d != 0.0
    ensures (a + b) / d == a / d + b / d
  {
  }

  lemma QuotientOfProduct(a: real, b: real, d: real)
    requires d != 0.0
    ensures (a * b) / d == (a / d) * b
  {
  }

  lemma Cancel(x: real, d: real)
    requires d != 0.0
    ensures Times(x, d) / d == x
  {
  }
}
