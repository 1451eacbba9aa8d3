/** cpoly: the steps of the Jenkins-Traub root finder, and the deflation. */
module Cpoly {
  import opened Basics
  import opened Vectors
  import opened Complex
  import opened Polynomials
  import opened QrUpdate

  /** The modulus. */
  function Modulus(c: C, root: real -> real): real {
    root(Times(c.re, c.re) + Times(c.im, c.im))
  }

  lemma ModulusOfZero(root: real -> real)
    requires IsRoot(root)
    ensures Modulus(ZERO, root) == 0.0
  {
    TimesZero(0.0);
    var r := root(0.0);
    SquarePositive(r, r);
  }

  lemma ModulusNotNegative(c: C, root: real -> real)
    requires IsRoot(root)
    ensures Modulus(c, root) >= 0.0
  {
    SquarePositive(c.re, c.re);
    SquarePositive(c.im, c.im);
  }

  // ----- division -----

  /** cdivid for a divisor other than zero, without forming the square of its modulus. */
  method Cdivid(ar: real, ai: real, br: real, bi: real) returns (cr: real, ci: real)
    requires br != 0.0 || bi != 0.0
    ensures Mul(C(cr, ci), C(br, bi)) == C(ar, ai)
  {
    hide Times;
    if Abs(br) >= Abs(bi) {
      var r := bi / br;
      var d := br + r * bi;
      DenominatorNotZero(br, bi, br, bi, r);
      cr := (ar + ai * r) / d;
      ci := (ai - ar * r) / d;
      SmithFirst(ar, ai, br, bi, r, d, cr, ci);
    } else {
      var r := br / bi;
      var d := bi + r * br;
      DenominatorNotZero(bi, br, bi, br, r);
      cr := (ar * r + ai) / d;
      ci := (ai * r - ar) / d;
      SmithSecond(ar, ai, br, bi, r, d, cr, ci);
    }
  }

  lemma DenominatorNotZero(x: real, y: real, x': real, y': real, r: real)
    requires x != 0.0 && r == y / x && x == x' && y == y'
    ensures x + r * y != 0.0
  {
    SquarePositive(x, x');
    SquarePositive(y, y');
    assert r * x' == y';
    assert (x + r * y) * x' == x * x' + y * (r * x');
    if x + r * y == 0.0 {
      TimesZero(x');
    }
  }

  lemma CancelFactor(x: real, y: real, d: real)
    requires d != 0.0 && Times(x, d) == Times(y, d)
    ensures x == y
  {
    assert (x - y) * d == x * d - y * d && (y - x) * d == -((x - y) * d);
    if x > y {
      NotZero(x - y, d);
    } else if x < y {
      NotZero(y - x, d);
    }
  }

  lemma SmithFirst(ar: real, ai: real, br: real, bi: real, r: real, d: real, cr: real, ci: real)
    requires br != 0.0 && r == bi / br && d == br + r * bi && d != 0.0
    requires cr == (ar + ai * r) / d && ci == (ai - ar * r) / d
    ensures Times(cr, br) - Times(ci, bi) == ar && Times(cr, bi) + Times(ci, br) == ai
  {
    assert r * br == bi && cr * d == ar + ai * r && ci * d == ai - ar * r;
    assert (cr * br - ci * bi) * d == (cr * d) * br - (ci * d) * bi;
    assert (ar + ai * r) * br - (ai - ar * r) * bi == ar * (br + r * bi) + ai * (r * br - bi);
    assert (cr * bi + ci * br) * d == (cr * d) * bi + (ci * d) * br;
    assert (ar + ai * r) * bi + (ai - ar * r) * br == ai * (br + r * bi) + ar * (bi - r * br);
    CancelFactor(cr * br - ci * bi, ar, d);
    CancelFactor(cr * bi + ci * br, ai, d);
  }

  lemma SmithSecond(ar: real, ai: real, br: real, bi: real, r: real, d: real, cr: real, ci: real)
    requires bi != 0.0 && r == br / bi && d == bi + r * br && d != 0.0
    requires cr == (ar * r + ai) / d && ci == (ai * r - ar) / d
    ensures Times(cr, br) - Times(ci, bi) == ar && Times(cr, bi) + Times(ci, br) == ai
  {
    assert r * bi == br && cr * d == ar * r + ai && ci * d == ai * r - ar;
    assert (cr * br - ci * bi) * d == (cr * d) * br - (ci * d) * bi;
    assert (ar * r + ai) * br - (ai * r - ar) * bi == ar * (bi + r * br) + ai * (br - r * bi);
    assert (cr * bi + ci * br) * d == (cr * d) * bi + (ci * d) * br;
    assert (ar * r + ai) * bi + (ai * r - ar) * br == ai * (bi + r * br) + ar * (r * bi - br);
    CancelFactor(cr * br - ci * bi, ar, d);
    CancelFactor(cr * bi + ci * br, ai, d);
  }

  // ----- Horner's scheme -----

  /** polyev: the value of the first n coefficients at s, and in q the partial sums. */
  method Polyev(n: nat, s: C, p: array<C>, q: array<C>) returns (v: C)
    requires 1 <= n <= p.Length && n <= q.Length && p != q
    modifies q
    ensures v == Eval(p[..n], s) && Partial(p[..n], s, q[..n])
    ensures forall i :: n <= i < q.Length ==> q[i] == old(q[i])
  {
    ghost var c := p[..n];
    q[0] := p[0];
    v := q[0];
    MulUnits(s);
    assert EvalTo(c, s, 1) == Add(Mul(EvalTo(c, s, 0), s), c[0]);
    hide Mul;
    var i := 1;
    while i < n
      invariant 1 <= i <= n && v == EvalTo(c, s, i)
      invariant forall k :: 0 <= k < i ==> q[k] == EvalTo(c, s, k + 1)
      invariant forall k :: n <= k < q.Length ==> q[k] == old(q[k])
    {
      v := Add(Mul(v, s), p[i]);
      q[i] := v;
      i := i + 1;
    }
  }

  /** The machine precision, as in the tests of the program. */
  const ETA: real := 1.0 / 4503599627370496.0

  /** The polynomials p and h and their quotients by z - s. */
  class Iteration {
    const p: array<C>
    const h: array<C>
    const qp: array<C>
    const qh: array<C>
    const root: real -> real
    /** The number of coefficients of p. */
    var nn: nat
    var s: C
    var t: C
    var pv: C

    ghost predicate Shapes()
      reads `nn
    {
      && 2 <= nn <= p.Length && p.Length == h.Length == qp.Length == qh.Length
      && p != h && p != qp && p != qh && h != qp && h != qh && qp != qh && IsRoot(root)
    }

    ghost function P(): Poly
      requires Shapes()
      reads `nn, p
    {
      p[..nn]
    }

    ghost function H(): Poly
      requires Shapes()
      reads `nn, h
    {
      h[..nn - 1]
    }

    /** polyev has been called for p and s. */
    ghost predicate Evaluated()
      requires Shapes()
      reads `nn, `s, `pv, p, qp
    {
      Partial(P(), s, qp[..nn]) && pv == Eval(P(), s)
    }

    /** h(s) is taken for zero. */
    ghost predicate Vanishes(v: C)
      requires Shapes()
      reads `nn, h
    {
      Modulus(v, root) <= ETA * 10.0 * Modulus(h[nn - 2], root)
    }

    /** calct: t = -p(s) / h(s), or 0 if h(s) is taken for zero. */
    method Calct() returns (zero: bool)
      requires Shapes() && Evaluated()
      modifies `t, qh
      ensures Partial(H(), s, qh[..nn - 1]) && (zero <==> Vanishes(Eval(H(), s)))
      ensures if zero then t == ZERO else Mul(t, Eval(H(), s)) == Neg(Eval(P(), s))
    {
      hide Mul, Eval, Partial, Modulus;
      var hv := Polyev(nn - 1, s, h, qh);
      zero := Modulus(hv, root) <= ETA * 10.0 * Modulus(h[nn - 2], root);
      if !zero {
        ModulusOfZero(root);
        BoundNotNegative(h[nn - 2]);
        var tr, ti := Cdivid(-pv.re, -pv.im, hv.re, hv.im);
        t := C(tr, ti);
      } else {
        t := ZERO;
      }
    }

    lemma BoundNotNegative(c: C)
      requires IsRoot(root)
      ensures ETA * 10.0 * Modulus(c, root) >= 0.0
    {
      ModulusNotNegative(c, root);
    }

    /** nexth: the next H polynomial. */
    method Nexth(zero: bool)
      requires Shapes() && Evaluated() && Partial(H(), s, qh[..nn - 1])
      requires !zero ==> Mul(t, Eval(H(), s)) == Neg(Eval(P(), s))
      modifies h
      ensures !zero ==> forall z :: Mul(Sub(z, s), Eval(H(), z)) == Add(Eval(P(), z), Mul(t, old(Eval(H(), z))))
      ensures zero ==> forall z :: Mul(Sub(z, s), Eval(H(), z)) == old(Sub(Eval(H(), z), Eval(H(), s)))
    {
      ghost var before, k, q := H(), qh[..nn - 1], qp[..nn];
      hide Mul, Eval, Partial;
      if !zero {
        FillNext();
        forall z ensures Mul(Sub(z, s), Eval(H(), z)) == Add(Eval(P(), z), Mul(t, Eval(before, z))) {
          NextH(P(), before, H(), s, q, k, t, z);
        }
      } else {
        FillShifted();
        forall z ensures Mul(Sub(z, s), Eval(H(), z)) == Sub(Eval(before, z), Eval(before, s)) {
          ShiftedH(before, H(), s, k, z);
        }
      }
    }

    method FillNext()
      requires Shapes()
      modifies h
      ensures Combines(H(), qp[..nn], qh[..nn - 1], t)
    {
      hide Mul;
      var n := nn - 1;
      var j := 1;
      while j < n
        invariant 1 <= j <= n && forall i :: 1 <= i < j ==> h[i] == Add(Mul(t, qh[i - 1]), qp[i])
      {
        h[j] := Add(Mul(t, qh[j - 1]), qp[j]);
        j := j + 1;
      }
      h[0] := qp[0];
    }

    method FillShifted()
      requires Shapes()
      modifies h
      ensures H()[0] == ZERO && forall j :: 1 <= j < nn - 1 ==> H()[j] == qh[j - 1]
    {
      var n := nn - 1;
      var j := 1;
      while j < n
        invariant 1 <= j <= n && forall i :: 1 <= i < j ==> h[i] == qh[i - 1]
      {
        h[j] := qh[j - 1];
        j := j + 1;
      }
      h[0] := ZERO;
    }

    /** The derivative of p, divided by its degree. */
    ghost predicate IsDerivative(h: Poly, p: Poly) {
      |h| == |p| - 1 && forall i :: 0 <= i < |h| ==>
        && Times(h[i].re, |h| as real) == Times((|h| - i) as real, p[i].re)
        && Times(h[i].im, |h| as real) == Times((|h| - i) as real, p[i].im)
    }

    method Derivative()
      requires Shapes()
      modifies h
      ensures IsDerivative(H(), P())
    {
      hide Times;
      var n := nn - 1;
      var i := 0;
      while i < n
        invariant 0 <= i <= n
        invariant forall k :: 0 <= k < i ==>
          && Times(h[k].re, n as real) == Times((n - k) as real, p[k].re)
          && Times(h[k].im, n as real) == Times((n - k) as real, p[k].im)
      {
        h[i] := DerivativeTerm(p[i], n - i, n);
        i := i + 1;
      }
    }

    /** The coefficient c, with exponent k, after differentiation and division by n. */
    method DerivativeTerm(c: C, k: nat, n: nat) returns (d: C)
      requires n > 0
      ensures Times(d.re, n as real) == Times(k as real, c.re) && Times(d.im, n as real) == Times(k as real, c.im)
    {
      var xni := k as real;
      Undivided(xni * c.re, n as real);
      Undivided(xni * c.im, n as real);
      d := C(xni * c.re / n as real, xni * c.im / n as real);
    }

    lemma Undivided(x: real, n: real)
      requires n != 0.0
      ensures x / n * n == x
    {
    }

    /** One step without a shift. */
    method NoShiftStep()
      requires Shapes()
      modifies `t, h
      ensures UnshiftedStep(P(), old(H()), H(), root)
    {
      hide Modulus, UnshiftedStep, TakenForZero;
      ghost var before := H();
      var n := nn - 1;
      ConstantTerm(P(), before, root);
      if Modulus(h[n - 1], root) <= ETA * 10.0 * Modulus(p[n - 1], root) {
        ShiftDown();
        DroppedStep(P(), before, H(), root);
      } else {
        ModulusOfZero(root);
        BoundNotNegative(p[n - 1]);
        var tr, ti := Cdivid(-p[nn - 1].re, -p[nn - 1].im, h[n - 1].re, h[n - 1].im);
        t := C(tr, ti);
        CombineDown();
        QuotientStep(P(), before, H(), t, root);
      }
    }

    method ShiftDown()
      requires Shapes()
      modifies h
      ensures H()[0] == ZERO && forall j :: 1 <= j < nn - 1 ==> H()[j] == old(H())[j - 1]
    {
      var n := nn - 1;
      var i := 1;
      while i <= n - 1
        invariant 1 <= i <= n
        invariant forall k :: n - i < k < n ==> h[k] == old(h[k - 1])
        invariant forall k :: 0 <= k <= n - i ==> h[k] == old(h[k])
      {
        var j := nn - i;
        h[j - 1] := h[j - 2];
        i := i + 1;
      }
      h[0] := ZERO;
    }

    method CombineDown()
      requires Shapes()
      modifies h
      ensures Combines(H(), P(), old(H()), t)
    {
      hide Mul;
      var n := nn - 1;
      var i := 1;
      while i <= n - 1
        invariant 1 <= i <= n
        invariant forall k :: n - i < k < n ==> h[k] == Add(Mul(t, old(h[k - 1])), p[k])
        invariant forall k :: 0 <= k <= n - i ==> h[k] == old(h[k])
      {
        var j := nn - i;
        h[j - 1] := Add(Mul(t, h[j - 2]), p[j - 1]);
        i := i + 1;
      }
      h[0] := p[0];
    }

    /** noshft: the derivative, and l1 H polynomials without a shift. */
    method Noshft(l1: nat) returns (ghost hs: seq<Poly>)
      requires Shapes()
      modifies `t, h
      ensures |hs| == l1 + 1 && IsDerivative(hs[0], P()) && hs[l1] == H()
      ensures forall k :: 0 <= k < l1 ==> UnshiftedStep(P(), hs[k], hs[k + 1], root)
    {
      hide IsDerivative, UnshiftedStep;
      Derivative();
      hs := [H()];
      var jj := 1;
      while jj <= l1
        invariant 1 <= jj <= l1 + 1 && |hs| == jj && hs[jj - 1] == H() && IsDerivative(hs[0], P())
        invariant forall k :: 0 <= k < jj - 1 ==> UnshiftedStep(P(), hs[k], hs[k + 1], root)
      {
        NoShiftStep();
        hs := hs + [H()];
        jj := jj + 1;
      }
    }
  }

  /** z H+(z) == P(z) + t H(z) with t H(0) == -P(0). */
  ghost predicate DividedStep(p: Poly, h: Poly, h': Poly, t: C) {
    && Mul(t, Eval(h, ZERO)) == Neg(Eval(p, ZERO))
    && forall z :: Mul(Sub(z, ZERO), Eval(h', z)) == Add(Eval(p, z), Mul(t, Eval(h, z)))
  }

  /** H(0) is taken for zero: its modulus is at most ten eta times that of the second last coefficient of P. */
  ghost predicate TakenForZero(p: Poly, h: Poly, root: real -> real)
    requires |p| >= 2
  {
    Modulus(Eval(h, ZERO), root) <= ETA * 10.0 * Modulus(p[|p| - 2], root)
  }

  /** z H+(z) == H(z) - H(0). */
  ghost predicate DropStep(h: Poly, h': Poly) {
    forall z :: Mul(Sub(z, ZERO), Eval(h', z)) == Sub(Eval(h, z), Eval(h, ZERO))
  }

  /** A step without a shift divides by H(0), unless that is taken for zero. */
  ghost predicate UnshiftedStep(p: Poly, h: Poly, h': Poly, root: real -> real)
    requires |p| >= 2
  {
    && |h'| == |h| == |p| - 1
    && if TakenForZero(p, h, root) then DropStep(h, h') else exists t :: DividedStep(p, h, h', t)
  }

  /** The test on the last coefficient of H is the test on H(0). */
  lemma ConstantTerm(p: Poly, h: Poly, root: real -> real)
    requires |h| == |p| - 1 >= 1
    ensures TakenForZero(p, h, root) <==> Modulus(h[|h| - 1], root) <= ETA * 10.0 * Modulus(p[|p| - 2], root)
  {
    hide Modulus, Eval;
    PartialAtZero(h);
  }

  lemma DroppedStep(p: Poly, h: Poly, h': Poly, root: real -> real)
    requires |h'| == |h| == |p| - 1 >= 1 && TakenForZero(p, h, root)
    requires h'[0] == ZERO && forall j :: 1 <= j < |h| ==> h'[j] == h[j - 1]
    ensures UnshiftedStep(p, h, h', root)
  {
    hide Mul, Eval, Partial, TakenForZero;
    PartialAtZero(h);
    forall z ensures Mul(Sub(z, ZERO), Eval(h', z)) == Sub(Eval(h, z), Eval(h, ZERO)) {
      ShiftedH(h, h', ZERO, h, z);
    }
  }

  lemma QuotientStep(p: Poly, h: Poly, h': Poly, t: C, root: real -> real)
    requires |h'| == |h| == |p| - 1 >= 1 && !TakenForZero(p, h, root)
    requires Combines(h', p, h, t) && Mul(t, h[|h| - 1]) == Neg(p[|p| - 1])
    ensures UnshiftedStep(p, h, h', root)
  {
    hide Mul, Eval, Partial, Combines, TakenForZero;
    PartialAtZero(p);
    PartialAtZero(h);
    forall z ensures Mul(Sub(z, ZERO), Eval(h', z)) == Add(Eval(p, z), Mul(t, Eval(h, z))) {
      NextH(p, h, h', ZERO, p, h, t, z);
    }
    assert DividedStep(p, h, h', t);
  }

  /** At 0 the partial sums are the coefficients. */
  lemma PartialAtZero(p: Poly)
    ensures Partial(p, ZERO, p) && (|p| >= 1 ==> Eval(p, ZERO) == p[|p| - 1])
  {
    hide Mul;
    forall i | 0 <= i < |p| ensures p[i] == EvalTo(p, ZERO, i + 1) {
      MulUnits(EvalTo(p, ZERO, i));
      assert EvalTo(p, ZERO, i + 1) == Add(Mul(EvalTo(p, ZERO, i), ZERO), p[i]);
    }
  }

  // ----- the deflation loop -----

  ghost predicate ScaledBy(q: Poly, p: Poly, c: C) {
    |q| == |p| && forall i :: 0 <= i < |p| ==> q[i] == Mul(c, p[i])
  }

  ghost predicate AllZero(zs: seq<C>) {
    forall i :: 0 <= i < |zs| ==> zs[i] == ZERO
  }

  /** k is the quotient of q and z - s. */
  ghost predicate IsQuotient(q: Poly, s: C, k: Poly) {
    |k| == |q| - 1 && forall z :: Eval(q, z) == Add(Mul(Sub(z, s), Eval(k, z)), Eval(q, s))
  }

  lemma QuotientIs(q: Poly, s: C, k: Poly)
    requires Partial(q, s, k) && |q| >= 1
    ensures IsQuotient(q, s, k[..|q| - 1])
  {
    hide Mul, Eval;
    forall z ensures Eval(q, z) == Add(Mul(Sub(z, s), Eval(k[..|q| - 1], z)), Eval(q, s)) {
      Polynomials.Quotient(q, s, k, z);
      SameTo(k[..|q| - 1], k, z, |q| - 1);
      EvalIsTo(k[..|q| - 1], z);
    }
  }

  lemma EvalIsTo(q: Poly, z: C)
    ensures Eval(q, z) == EvalTo(q, z, |q|)
  {
  }

  /** s is the zero of a linear polynomial. */
  ghost predicate IsZeroOfLinear(q: Poly, s: C) {
    |q| == 2 && Mul(s, q[0]) == Neg(q[1])
  }

  /** A zero at the origin: the last coefficient is zero. */
  lemma OriginZero(p: Poly, zs: seq<C>, q: Poly, q': Poly)
    requires Deflated(p, zs, zs, q) && AllZero(zs) && |q| >= 1 && q[|q| - 1] == ZERO && q' == q[..|q| - 1]
    ensures Deflated(p, zs + [ZERO], zs + [ZERO], q') && AllZero(zs + [ZERO])
  {
    hide Deflated;
    PartialAtZero(q);
    DeflateOnce(p, zs, zs, q, ZERO, q);
  }

  /** Scaling the polynomial and the quotient. */
  lemma ScaleDeflated(p: Poly, p': Poly, zs: seq<C>, q: Poly, q': Poly, c: C)
    requires Deflated(p, zs, zs, q) && AllZero(zs) && ScaledBy(p', p, c) && ScaledBy(q', q, c)
    ensures Deflated(p', zs, zs, q')
  {
    hide Mul;
    forall z ensures Eval(p', z) == Add(Mul(Product(zs, z), Eval(q', z)), Remainders(zs, zs, z)) {
      ScaledPoly(p, p', c, z, |p|);
      ScaledPoly(q, q', c, z, |q|);
      NoRemainders(zs, zs, z);
      var a, v := Product(zs, z), Eval(q, z);
      MulAssociates(a, c, v);
      MulAssociates(c, a, v);
      MulCommutes(a, c);
    }
  }

  /** A linear polynomial and its zero. */
  lemma LastZero(p: Poly, zs: seq<C>, rs: seq<C>, q: Poly, s: C)
    requires Deflated(p, zs, rs, q) && |q| == 2 && Mul(s, q[0]) == Neg(q[1])
    ensures Deflated(p, zs + [s], rs + [ZERO], [q[0]])
  {
    hide Mul, Deflated;
    MulUnits(s);
    MulUnits(q[0]);
    MulCommutes(s, q[0]);
    var k := [q[0], ZERO];
    assert EvalTo(q, s, 1) == Add(Mul(EvalTo(q, s, 0), s), q[0]) == q[0];
    assert EvalTo(q, s, 2) == Add(Mul(EvalTo(q, s, 1), s), q[1]) == ZERO;
    DeflateOnce(p, zs, rs, q, s, k);
    assert k[..1] == [q[0]];
  }

  /** R_cpolyroot, where search finds a point of convergence for a polynomial, and scale a factor for it. */
  class RootFinder {
    const degree: nat
    const search: Poly -> Option<C>
    const scale: Poly -> real
    const zero: array<C>
    const p: array<C>
    const qp: array<C>

    constructor (degree: nat, search: Poly -> Option<C>, scale: Poly -> real)
      ensures Shapes() && fresh(zero) && fresh(p) && fresh(qp)
      ensures this.degree == degree && this.search == search && this.scale == scale
    {
      this.degree, this.search, this.scale := degree, search, scale;
      zero := new C[degree];
      p := new C[degree + 1];
      qp := new C[degree + 1];
    }

    ghost predicate Shapes() {
      zero.Length == degree && p.Length == qp.Length == degree + 1 && zero != p && zero != qp && p != qp
    }

    /** The zeros at the origin; nn is one more than the number of coefficients that remain. */
    method RemoveOrigin(op: Poly) returns (nn: nat, ghost zs: seq<C>)
      requires Shapes() && |op| == degree + 1 && op[0] != ZERO
      modifies zero
      ensures 1 <= nn <= degree + 1 && zs == zero[..degree + 1 - nn] && AllZero(zs) && op[nn - 1] != ZERO
      ensures Deflated(op, zs, zs, op[..nn])
    {
      hide Deflated;
      nn := degree;
      zs := [];
      ghost var q := op;
      NotDeflated(op);
      while op[nn] == ZERO
        invariant nn <= degree && q == op[..nn + 1] && zs == zero[..degree - nn]
        invariant AllZero(zs) && Deflated(op, zs, zs, q)
        decreases nn
      {
        OriginZero(op, zs, q, op[..nn]);
        zero[degree - nn] := ZERO;
        zs := zs + [ZERO];
        q := op[..nn];
        nn := nn - 1;
      }
      nn := nn + 1;
    }

    /** Copies the first nn coefficients, times bnd. */
    method CopyScaled(op: Poly, nn: nat, bnd: real)
      requires Shapes() && nn <= |op| == degree + 1
      modifies p
      ensures ScaledBy(p[..nn], op[..nn], C(bnd, 0.0))
    {
      hide Mul;
      var i := 0;
      while i < nn
        invariant 0 <= i <= nn && forall k :: 0 <= k < i ==> p[k] == Mul(C(bnd, 0.0), op[k])
      {
        p[i] := Mul(C(bnd, 0.0), op[i]);
        i := i + 1;
      }
    }

    /** Stores a zero and replaces p by its quotient. */
    method Deflate(nn: nat, s: C, ghost sp: Poly, ghost zs: seq<C>, ghost rs: seq<C>) returns (ghost r: C)
      requires Shapes() && 2 < nn <= degree + 1 && zs == zero[..degree + 1 - nn] && Deflated(sp, zs, rs, p[..nn])
      modifies zero, p, qp
      ensures zero[..degree + 2 - nn] == zs + [s] && r == old(Eval(p[..nn], s))
      ensures Deflated(sp, zs + [s], rs + [r], p[..nn - 1]) && p[0] == old(p[0])
      ensures IsQuotient(old(p[..nn]), s, p[..nn - 1])
    {
      hide Deflated, Mul;
      ghost var q := p[..nn];
      var v := Polyev(nn, s, p, qp);
      r := v;
      ghost var k := qp[..nn];
      DeflateOnce(sp, zs, rs, q, s, k);
      QuotientIs(q, s, k);
      hide IsQuotient;
      assert Deflated(sp, zs + [s], rs + [r], k[..nn - 1]);
      MulUnits(s);
      assert EvalTo(q, s, 1) == Add(Mul(EvalTo(q, s, 0), s), q[0]) == q[0];
      assert qp[..nn][0] == q[0];
      zero[degree + 1 - nn] := s;
      assert zero[..degree + 2 - nn] == zs + [s];
      var i := 0;
      while i < nn - 1
        invariant 0 <= i <= nn - 1
        invariant forall k :: 0 <= k < i ==> p[k] == qp[k]
        modifies p
      {
        p[i] := qp[i];
        i := i + 1;
      }
      assert p[..nn - 1] == k[..nn - 1];
    }

    /** What a successful search has found for the scaled polynomial sp. */
    ghost predicate Found(sp: Poly, rs: seq<C>)
      reads zero
    {
      |sp| >= 1 && Deflated(sp, zero[..], rs, [sp[0]])
    }

    /**
     * The polynomials qs that are left after the zeros at the origin and after each zero that is found: the search
     * finds zs[k + i] for the i-th, which is then divided by that linear factor.
     */
    ghost predicate Searched(op: Poly, bnd: real, k: nat, qs: seq<Poly>, zs: seq<C>)
      requires |op| == degree + 1
    {
      && |zs| == degree && k < degree && (forall i :: 0 <= i < k ==> zs[i] == ZERO) && op[degree - k] != ZERO
      && 1 <= |qs| <= degree - k
      && ScaledBy(qs[0], op[..degree + 1 - k], C(bnd, 0.0)) && bnd == scale(op[..degree + 1 - k])
      && (forall i :: 0 <= i < |qs| ==> |qs[i]| == degree + 1 - k - i)
      && (forall i :: 0 <= i < |qs| - 1 ==>
        search(qs[i]) == Some(zs[k + i]) && IsQuotient(qs[i], zs[k + i], qs[i + 1]))
    }

    lemma SearchBegins(op: Poly, bnd: real, k: nat, q: Poly, zs: seq<C>)
      requires |zs| == degree && |op| == degree + 1 && k < degree && AllZero(zs[..k]) && op[degree - k] != ZERO
      requires ScaledBy(q, op[..degree + 1 - k], C(bnd, 0.0)) && bnd == scale(op[..degree + 1 - k])
      ensures Searched(op, bnd, k, [q], zs)
    {
      hide Mul;
      forall i | 0 <= i < k ensures zs[i] == ZERO {
        assert zs[..k][i] == ZERO;
      }
    }

    /** One more zero has been found. */
    lemma SearchGoesOn(op: Poly, bnd: real, k: nat, qs: seq<Poly>, s: C, q: Poly, zs: seq<C>, zs': seq<C>)
      requires |op| == degree + 1 && Searched(op, bnd, k, qs, zs) && |qs| < degree - k && |zs'| == degree
      requires zs'[..k + |qs|] == zs[..k + |qs| - 1] + [s]
      requires search(qs[|qs| - 1]) == Some(s) && IsQuotient(qs[|qs| - 1], s, q)
      ensures Searched(op, bnd, k, qs + [q], zs')
    {
      hide ScaledBy, IsQuotient;
      forall i | 0 <= i < k + |qs| ensures zs'[i] == if i < k + |qs| - 1 then zs[i] else s {
        assert zs'[i] == zs'[..k + |qs|][i];
      }
      assert |q| == |qs[|qs| - 1]| - 1 by {
        QuotientSize(qs[|qs| - 1], s, q);
      }
    }

    lemma QuotientSize(p: Poly, s: C, q: Poly)
      requires IsQuotient(p, s, q)
      ensures |q| == |p| - 1
    {
    }

    /** The loop for all zeros but the last. */
    method FindZeros(op: Poly, k: nat, ghost bnd: real, ghost sp: Poly, ghost zs0: seq<C>)
      returns (fail: bool, ghost zs: seq<C>, ghost rs: seq<C>, ghost qs: seq<Poly>)
      requires Shapes() && |op| == degree + 1 && k < degree && zs0 == zero[..k] && AllZero(zs0)
      requires ScaledBy(p[..degree + 1 - k], op[..degree + 1 - k], C(bnd, 0.0)) && bnd == scale(op[..degree + 1 - k])
      requires op[degree - k] != ZERO && Deflated(sp, zs0, zs0, p[..degree + 1 - k]) && |sp| >= 1 && p[0] == sp[0]
      modifies zero, p, qp
      ensures Searched(op, bnd, k, qs, zero[..])
      ensures fail ==> |qs[|qs| - 1]| > 2 && search(qs[|qs| - 1]) == None
      ensures !fail ==>
        && |qs| == degree - k && qs[|qs| - 1] == p[..2] && p[0] == sp[0]
        && zs == zero[..degree - 1] && Deflated(sp, zs, rs, p[..2])
    {
      hide Deflated, Mul, ScaledBy, IsQuotient, Searched, AllZero, Eval;
      var nn := degree + 1 - k;
      fail, zs, rs, qs := false, zs0, zs0, [p[..nn]];
      SearchBegins(op, bnd, k, p[..nn], zero[..]);
      while nn > 2
        invariant 2 <= nn <= degree + 1 - k && zs == zero[..degree + 1 - nn] && Deflated(sp, zs, rs, p[..nn])
        invariant p[0] == sp[0]
        invariant Searched(op, bnd, k, qs, zero[..]) && |qs| == degree + 2 - k - nn && qs[|qs| - 1] == p[..nn]
      {
        match search(p[..nn])
        case None =>
          fail := true;
          return;
        case Some(s) =>
          ghost var z0 := zero[..];
          ghost var r := Deflate(nn, s, sp, zs, rs);
          zs, rs := zs + [s], rs + [r];
          nn := nn - 1;
          SearchGoesOn(op, bnd, k, qs, s, p[..nn], z0, zero[..]);
          qs := qs + [p[..nn]];
      }
    }

    /**
     * The whole root finder. If it does not fail, the polynomial, scaled by bnd, is made up of the
     * linear factors of all zeros and the remainders that were left when each was divided out. It
     * fails if the leading coefficient is zero, or for the first polynomial for which the search does.
     */
    method Cpolyroot(op: Poly)
      returns (fail: bool, ghost sp: Poly, ghost bnd: real, ghost rs: seq<C>, ghost k: nat, ghost qs: seq<Poly>)
      requires Shapes() && |op| == degree + 1 && forall q: Poly :: scale(q) != 0.0
      modifies zero, p, qp
      ensures op[0] == ZERO ==> fail
      ensures !fail ==> bnd != 0.0 && ScaledBy(sp, op, C(bnd, 0.0)) && Found(sp, rs)
      ensures op[0] != ZERO ==> if k == degree then !fail && AllZero(zero[..]) else Searched(op, bnd, k, qs, zero[..])
      ensures op[0] != ZERO && k < degree ==>
        if fail then |qs[|qs| - 1]| > 2 && search(qs[|qs| - 1]) == None
        else |qs| == degree - k && IsZeroOfLinear(qs[|qs| - 1], zero[degree - 1])
    {
      hide Deflated, Mul, ScaledBy, AllZero, Searched, Eval;
      fail, sp, bnd, rs, k, qs := false, op, 1.0, [], degree, [];
      if op[0] == ZERO {
        fail := true;
        return;
      }
      var nn;
      ghost var zs;
      nn, zs := RemoveOrigin(op);
      UnitScale(op);
      rs := zs;
      if nn == 1 {
        assert op[..1] == [op[0]];
        assert zero[..degree] == zero[..];
        return;
      }
      k := degree + 1 - nn;
      bnd := scale(op[..nn]);
      CopyScaled(op, nn, scale(op[..nn]));
      sp := ScaleBy(op, bnd);
      ScaleDeflated(op, sp, zs, op[..nn], p[..nn], C(bnd, 0.0));
      LeadIsScaled(op, nn, bnd, sp, p[..nn]);
      fail, zs, rs, qs := FindZeros(op, degree + 1 - nn, bnd, sp, zs);
      if fail {
        return;
      }
      rs := LastRoot(op, bnd, k, qs, sp, zs, rs);
    }

    /** The zero of the linear polynomial that is left. */
    method LastRoot(op: Poly, ghost bnd: real, ghost k: nat, ghost qs: seq<Poly>, ghost sp: Poly, ghost zs: seq<C>,
                    ghost rs0: seq<C>)
      returns (ghost rs: seq<C>)
      requires Shapes() && degree >= 1 && |op| == degree + 1 && |sp| >= 1 && p[0] == sp[0] != ZERO
      requires zs == zero[..degree - 1] && Deflated(sp, zs, rs0, p[..2])
      requires Searched(op, bnd, k, qs, zero[..]) && |qs| == degree - k && qs[|qs| - 1] == p[..2]
      modifies zero
      ensures Found(sp, rs) && Searched(op, bnd, k, qs, zero[..]) && IsZeroOfLinear(qs[|qs| - 1], zero[degree - 1])
    {
      hide Deflated, Mul, ScaledBy;
      var zr, zi := Cdivid(-p[1].re, -p[1].im, p[0].re, p[0].im);
      zero[degree - 1] := C(zr, zi);
      LastZero(sp, zs, rs0, p[..2], C(zr, zi));
      rs := rs0 + [ZERO];
      assert zero[..] == zs + [C(zr, zi)];
    }
  }

  ghost function ScaleBy(op: Poly, bnd: real): (sp: Poly)
    ensures ScaledBy(sp, op, C(bnd, 0.0))
  {
    hide Mul;
    seq(|op|, i requires 0 <= i < |op| => Mul(C(bnd, 0.0), op[i]))
  }

  /** The leading coefficient of the scaled polynomial is not zero either. */
  lemma LeadIsScaled(op: Poly, nn: nat, bnd: real, sp: Poly, q: Poly)
    requires 1 <= nn <= |op| && op[0] != ZERO && bnd != 0.0
    requires ScaledBy(sp, op, C(bnd, 0.0)) && ScaledBy(q, op[..nn], C(bnd, 0.0))
    ensures |sp| >= 1 && |q| >= 1 && q[0] == sp[0] != ZERO
  {
    hide Mul;
    NonzeroLead(bnd, op[0]);
  }

  lemma UnitScale(p: Poly)
    ensures ScaledBy(p, p, C(1.0, 0.0))
  {
    forall i | 0 <= i < |p| ensures p[i] == Mul(C(1.0, 0.0), p[i]) {
      MulUnits(p[i]);
    }
  }

  lemma NonzeroLead(b: real, a: C)
    requires b != 0.0 && a != ZERO
    ensures Mul(C(b, 0.0), a) != ZERO
  {
    TimesZero(a.re);
    TimesZero(a.im);
    NotZeroEither(a.re, b);
    NotZeroEither(a.im, b);
  }

  lemma NotZeroEither(x: real, b: real)
    requires b != 0.0
    ensures x != 0.0 ==> Times(b, x) != 0.0
  {
    hide Times;
    if x > 0.0 {
      NotZero(x, b);
      Commute(x, b);
    } else if x < 0.0 {
      NotZero(-x, b);
      Opposite(x, b);
    }
  }
}
