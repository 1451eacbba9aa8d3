/** Complex numbers over exact reals. */
module Complex {
  import opened Vectors

  datatype C = C(re: real, im: real)

  const ZERO := C(0.0, 0.0)
  const ONE := C(1.0, 0.0)

  function Add(a: C, b: C): C {
    C(a.re + b.re, a.im + b.im)
  }

  function Sub(a: C, b: C): C {
    C(a.re - b.re, a.im - b.im)
  }

  function Neg(a: C): C {
    C(-a.re, -a.im)
  }

  function Mul(a: C, b: C): C {
    C(Times(a.re, b.re) - Times(a.im, b.im), Times(a.re, b.im) + Times(a.im, b.re))
  }

  lemma MulCommutes(a: C, b: C)
    ensures Mul(a, b) == Mul(b, a)
  {
  }

  lemma MulDistributes(a: C, b: C, c: C)
    ensures Mul(a, Add(b, c)) == Add(Mul(a, b), Mul(a, c))
    ensures Mul(Add(b, c), a) == Add(Mul(b, a), Mul(c, a))
    ensures Mul(a, Sub(b, c)) == Sub(Mul(a, b), Mul(a, c))
    ensures Mul(Sub(b, c), a) == Sub(Mul(b, a), Mul(c, a))
  {
    TimesSums(a.re, b.re, c.re);
    TimesSums(a.re, b.im, c.im);
    TimesSums(a.im, b.re, c.re);
    TimesSums(a.im, b.im, c.im);
  }

  lemma TimesSums(a: real, b: real, c: real)
    ensures Times(a, b + c) == Times(a, b) + Times(a, c) == Times(b + c, a)
    ensures Times(a, b - c) == Times(a, b) - Times(a, c) == Times(b - c, a)
    ensures Times(a, b) == Times(b, a)
  {
    assert a * (b + c) == a * b + a * c;
    assert a * (b - c) == a * b - a * c;
  }

  lemma MulAssociates(a: C, b: C, c: C)
    ensures Mul(Mul(a, b), c) == Mul(a, Mul(b, c))
  {
    Associate(a.re, a.im, b.re, b.im, c.re, c.im);
  }

  lemma Associate(ar: real, ai: real, br: real, bi: real, cr: real, ci: real)
    ensures Times(Times(ar, br) - Times(ai, bi), cr) - Times(Times(ar, bi) + Times(ai, br), ci) ==
            Times(ar, Times(br, cr) - Times(bi, ci)) - Times(ai, Times(br, ci) + Times(bi, cr))
    ensures Times(Times(ar, br) - Times(ai, bi), ci) + Times(Times(ar, bi) + Times(ai, br), cr) ==
            Times(ar, Times(br, ci) + Times(bi, cr)) + Times(ai, Times(br, cr) - Times(bi, ci))
  {
  }

  lemma MulUnits(a: C)
    ensures Mul(ONE, a) == a == Mul(a, ONE)
    ensures Mul(ZERO, a) == ZERO == Mul(a, ZERO)
    ensures Add(ZERO, a) == a == Add(a, ZERO)
  {
  }
}
