/** The parabola through three points, and the step to its vertex. */
module Parabola {

  /** The parabola a t^2 + b t + c has the value y at x. */
  ghost predicate Through(a: real, b: real, c: real, x: real, y: real) {
    a * (x * x) + b * x + c == y
  }

  ghost predicate Fits(a: real, b: real, c: real, x: real, w: real, v: real, fx: real, fw: real, fv: real) {
    Through(a, b, c, x, fx) && Through(a, b, c, w, fw) && Through(a, b, c, v, fv)
  }

  /** At t the derivative of the parabola is zero. */
  ghost predicate IsVertex(a: real, b: real, t: real) {
    a != 0.0 && 2.0 * (a * t) + b == 0.0
  }

  /** Three different points determine a parabola, and s leads from x to its vertex. */
  ghost predicate LeadsToVertex(x: real, w: real, v: real, fx: real, fw: real, fv: real, s: real) {
    && x != w && x != v && w != v
    && exists a, b, c :: Fits(a, b, c, x, w, v, fx, fw, fv) && IsVertex(a, b, x + s)
  }

  /** Equal points have equal values. */
  ghost predicate Consistent(x: real, w: real, v: real, fx: real, fw: real, fv: real) {
    (x == w ==> fx == fw) && (x == v ==> fx == fv) && (w == v ==> fw == fv)
  }

  // ----- what the formulas of the program compute -----

  /** i and j are the distances of the other two points, di and dj the differences of the values at x and there. */
  function Numerator(i: real, j: real, di: real, dj: real): real {
    j * (j * di) - i * (i * dj)
  }

  function Denominator(i: real, j: real, di: real, dj: real): real {
    (j * di - i * dj) * 2.0
  }

  /** The difference of two values of a parabola. */
  lemma Chord(a: real, b: real, c: real, x: real, y: real, fx: real, fy: real)
    requires Through(a, b, c, x, fx) && Through(a, b, c, y, fy)
    ensures fx - fy == (x - y) * (a * (x + y) + b)
  {
    assert (x - y) * (a * (x + y)) == a * (x * x) - a * (y * y);
    assert (x - y) * (a * (x + y) + b) == (x - y) * (a * (x + y)) + (x - y) * b;
  }

  lemma Factors(i: real, j: real, g: real, h: real)
    ensures j * (i * g) - i * (j * h) == (i * j) * (g - h)
    ensures j * (j * (i * g)) - i * (i * (j * h)) == (i * j) * (j * g - i * h)
  {
    assert j * (i * g) == (i * j) * g && i * (j * h) == (i * j) * h;
    assert j * ((i * j) * g) == (i * j) * (j * g) && i * ((i * j) * h) == (i * j) * (i * h);
    assert (i * j) * (g - h) == (i * j) * g - (i * j) * h;
    assert (i * j) * (j * g - i * h) == (i * j) * (j * g) - (i * j) * (i * h);
  }

  lemma Bracket(a: real, b: real, x: real, w: real, v: real)
    ensures (x - v) * (a * (x + w) + b) - (x - w) * (a * (x + v) + b) == (w - v) * (2.0 * (a * x) + b)
    ensures (a * (x + w) + b) - (a * (x + v) + b) == (w - v) * a
  {
    assert (x - v) * (x + w) - (x - w) * (x + v) == 2.0 * (x * (w - v));
    assert (x - v) * (a * (x + w)) == a * ((x - v) * (x + w)) && (x - w) * (a * (x + v)) == a * ((x - w) * (x + v));
    assert a * (2.0 * (x * (w - v))) == (w - v) * (2.0 * (a * x));
  }

  lemma FormulasAre(i: real, j: real, n: real, di: real, dj: real, g: real, h: real, y: real, a: real, k: real)
    requires di == i * g && dj == j * h && j * g - i * h == n * y && g - h == n * a && k == (i * j) * n
    ensures Numerator(i, j, di, dj) == k * y && Denominator(i, j, di, dj) == 2.0 * (k * a)
  {
    Factors(i, j, g, h);
    Regrouped(i * j, n, y, a);
  }

  lemma Regrouped(m: real, n: real, y: real, z: real)
    ensures m * (n * y) == (m * n) * y && m * (n * z) == (m * n) * z
  {
  }

  /** Numerator and denominator are multiples of the slope at x and of the second coefficient. */
  lemma FormulasOf(a: real, b: real, c: real, x: real, w: real, v: real, fx: real, fw: real, fv: real, k: real)
    requires Fits(a, b, c, x, w, v, fx, fw, fv) && IsProduct(k, x - w, x - v, w - v)
    ensures Numerator(x - w, x - v, fx - fw, fx - fv) == k * (2.0 * (a * x) + b)
    ensures Denominator(x - w, x - v, fx - fw, fx - fv) == 2.0 * (k * a)
  {
    hide Numerator, Denominator;
    Chord(a, b, c, x, w, fx, fw);
    Chord(a, b, c, x, v, fx, fv);
    Bracket(a, b, x, w, v);
    FormulasAre(x - w, x - v, w - v, fx - fw, fx - fv, a * (x + w) + b, a * (x + v) + b, 2.0 * (a * x) + b, a, k);
  }

  ghost predicate IsProduct(k: real, i: real, j: real, n: real) {
    k == (i * j) * n
  }

  /** The coefficients of the parabola through three different points. */
  lemma FitExists(x: real, w: real, v: real, fx: real, fw: real, fv: real) returns (a: real, b: real, c: real)
    requires x != w && x != v && w != v
    ensures Fits(a, b, c, x, w, v, fx, fw, fv)
  {
    var g, h := (fx - fw) / (x - w), (fx - fv) / (x - v);
    a := (g - h) / (w - v);
    b := g - a * (x + w);
    c := fx - a * (x * x) - b * x;
    assert g * (x - w) == fx - fw && h * (x - v) == fx - fv && a * (w - v) == g - h;
    Passes(a, b, c, x, w, fx, fw, g);
    assert h == a * (x + v) + b by {
      assert a * (x + w) - a * (x + v) == a * (w - v);
    }
    Passes(a, b, c, x, v, fx, fv, h);
  }

  lemma Passes(a: real, b: real, c: real, x: real, y: real, fx: real, fy: real, g: real)
    requires c == fx - a * (x * x) - b * x && g == a * (x + y) + b && g * (x - y) == fx - fy
    ensures Through(a, b, c, x, fx) && Through(a, b, c, y, fy)
  {
    assert (x - y) * (a * (x + y)) == a * (x * x) - a * (y * y);
    assert g * (x - y) == (x - y) * (a * (x + y)) + (x - y) * b;
  }

  /** Where p / q leads to the vertex. */
  lemma VertexOf(a: real, b: real, x: real, k: real, p: real, q: real, s: real)
    requires k != 0.0 && p == k * (2.0 * (a * x) + b) && q == 2.0 * (k * a)
    ensures q == 0.0 <==> a == 0.0
    ensures IsVertex(a, b, x + s) <==> q != 0.0 && q * s == -p
  {
    assert 2.0 * (a * (x + s)) + b == (2.0 * (a * x) + b) + 2.0 * (a * s);
    assert k * (2.0 * (a * s)) == q * s;
    assert k * ((2.0 * (a * x) + b) + 2.0 * (a * s)) == p + q * s;
    Cancels(k, (2.0 * (a * x) + b) + 2.0 * (a * s));
    Cancels(k, a);
  }

  lemma Cancels(k: real, y: real)
    requires k != 0.0
    ensures k * y == 0.0 <==> y == 0.0
  {
  }

  /** The quotient of the two formulas, with its sign changed, leads to the vertex, and nothing else does. */
  lemma StepToVertex(x: real, w: real, v: real, fx: real, fw: real, fv: real, p: real, q: real, s: real)
    requires Consistent(x, w, v, fx, fw, fv)
    requires p == Numerator(x - w, x - v, fx - fw, fx - fv) && q == Denominator(x - w, x - v, fx - fw, fx - fv)
    ensures LeadsToVertex(x, w, v, fx, fw, fv, s) <==> q != 0.0 && q * s == -p
  {
    if x != w && x != v && w != v {
      var k := NotZero(x - w, x - v, w - v);
      hide IsProduct, Numerator, Denominator, Fits, IsVertex;
      forall a, b, c | Fits(a, b, c, x, w, v, fx, fw, fv)
        ensures IsVertex(a, b, x + s) <==> q != 0.0 && q * s == -p
      {
        FormulasOf(a, b, c, x, w, v, fx, fw, fv, k);
        VertexOf(a, b, x, k, p, q, s);
      }
      var a, b, c := FitExists(x, w, v, fx, fw, fv);
      assert Fits(a, b, c, x, w, v, fx, fw, fv);
    } else {
      Degenerate(x, w, v, fx, fw, fv);
    }
  }

  lemma NotZero(i: real, j: real, n: real) returns (k: real)
    requires i != 0.0 && j != 0.0 && n != 0.0
    ensures IsProduct(k, i, j, n) && k != 0.0
  {
    k := (i * j) * n;
    Cancels(i, j);
    Cancels(n, i * j);
  }

  lemma Degenerate(x: real, w: real, v: real, fx: real, fw: real, fv: real)
    requires Consistent(x, w, v, fx, fw, fv) && (x == w || x == v || w == v)
    ensures Denominator(x - w, x - v, fx - fw, fx - fv) == 0.0
  {
  }
}
