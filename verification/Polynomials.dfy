/** Complex polynomials, leading coefficient first, and Horner's scheme. */
module Polynomials {
  import opened Complex

  type Poly = seq<C>

  /** The polynomial of the first k coefficients, at z. */
  function EvalTo(p: Poly, z: C, k: nat): C
    requires k <= |p|
  {
    if k == 0 then ZERO else Add(Mul(EvalTo(p, z, k - 1), z), p[k - 1])
  }

  function Eval(p: Poly, z: C): C {
    EvalTo(p, z, |p|)
  }

  /** The partial sums of Horner's scheme at s. */
  ghost predicate Partial(p: Poly, s: C, q: Poly) {
    |q| == |p| && forall i :: 0 <= i < |p| ==> q[i] == EvalTo(p, s, i + 1)
  }

  lemma {:induction false} SameTo(p: Poly, q: Poly, z: C, k: nat)
    requires k <= |p| && k <= |q| && forall i :: 0 <= i < k ==> p[i] == q[i]
    ensures EvalTo(p, z, k) == EvalTo(q, z, k)
  {
    if k > 0 {
      SameTo(p, q, z, k - 1);
    }
  }

  /** The partial sums are the quotient by z - s, and the last one the remainder. */
  lemma {:induction false} Division(p: Poly, s: C, q: Poly, z: C, k: nat)
    requires Partial(p, s, q) && k < |p|
    ensures EvalTo(p, z, k + 1) == Add(Mul(Sub(z, s), EvalTo(q, z, k)), q[k])
  {
    hide Mul;
    if k == 0 {
      MulUnits(z);
      MulUnits(s);
      MulUnits(Sub(z, s));
      assert EvalTo(p, z, 1) == Add(Mul(EvalTo(p, z, 0), z), p[0]);
      assert EvalTo(p, s, 1) == Add(Mul(EvalTo(p, s, 0), s), p[0]);
    } else {
      Division(p, s, q, z, k - 1);
      DivisionStep(z, s, EvalTo(q, z, k - 1), q[k - 1], p[k]);
    }
  }

  lemma DivisionStep(z: C, s: C, q: C, v: C, c: C)
    ensures Add(Mul(Add(Mul(Sub(z, s), q), v), z), c) == Add(Mul(Sub(z, s), Add(Mul(q, z), v)), Add(Mul(v, s), c))
  {
    hide Mul;
    var d := Sub(z, s);
    MulDistributes(z, Mul(d, q), v);
    MulDistributes(d, Mul(q, z), v);
    MulAssociates(d, q, z);
    MulDistributes(v, z, s);
    MulCommutes(v, z);
    MulCommutes(v, s);
  }

  /** P(z) == (z - s) Q(z) + P(s). */
  lemma Quotient(p: Poly, s: C, q: Poly, z: C)
    requires Partial(p, s, q) && |p| >= 1
    ensures Eval(p, z) == Add(Mul(Sub(z, s), EvalTo(q, z, |p| - 1)), Eval(p, s))
  {
    Division(p, s, q, z, |p| - 1);
  }

  // ----- the H polynomials -----

  /** The coefficients of Q(z) + t K(z), where K has one coefficient less. */
  ghost predicate Combines(h: Poly, q: Poly, k: Poly, t: C) {
    && 1 <= |h| <= |q| && |h| - 1 <= |k|
    && h[0] == q[0] && forall j :: 1 <= j < |h| ==> h[j] == Add(Mul(t, k[j - 1]), q[j])
  }

  lemma {:induction false} CombinesTo(h: Poly, q: Poly, k: Poly, t: C, z: C, n: nat)
    requires Combines(h, q, k, t) && 1 <= n <= |h|
    ensures EvalTo(h, z, n) == Add(EvalTo(q, z, n), Mul(t, EvalTo(k, z, n - 1)))
  {
    hide Mul;
    if n == 1 {
      MulUnits(z);
      MulUnits(t);
    } else {
      CombinesTo(h, q, k, t, z, n - 1);
      CombineStep(EvalTo(q, z, n - 1), EvalTo(k, z, n - 2), k[n - 2], q[n - 1], t, z);
    }
  }

  lemma CombineStep(q: C, k: C, b: C, c: C, t: C, z: C)
    ensures Add(Mul(Add(q, Mul(t, k)), z), Add(Mul(t, b), c)) == Add(Add(Mul(q, z), c), Mul(t, Add(Mul(k, z), b)))
  {
    hide Mul;
    MulDistributes(z, q, Mul(t, k));
    MulDistributes(t, Mul(k, z), b);
    MulAssociates(t, k, z);
  }

  /** The next H polynomial: (z - s) H+(z) == P(z) + t H(z), for t == -P(s) / H(s). */
  lemma NextH(p: Poly, h: Poly, h': Poly, s: C, q: Poly, k: Poly, t: C, z: C)
    requires |h| == |h'| == |p| - 1 >= 1 && Partial(p, s, q) && Partial(h, s, k)
    requires Combines(h', q, k, t) && Mul(t, Eval(h, s)) == Neg(Eval(p, s))
    ensures Mul(Sub(z, s), Eval(h', z)) == Add(Eval(p, z), Mul(t, Eval(h, z)))
  {
    hide Mul;
    var n, d := |h|, Sub(z, s);
    CombinesTo(h', q, k, t, z, n);
    Quotient(p, s, q, z);
    Quotient(h, s, k, z);
    var x, y := EvalTo(q, z, n), EvalTo(k, z, n - 1);
    MulDistributes(d, x, Mul(t, y));
    MulDistributes(t, Mul(d, y), Eval(h, s));
    MulAssociates(d, t, y);
    MulAssociates(t, d, y);
    MulCommutes(d, t);
  }

  /** If H(s) is taken for zero, the next H polynomial is its quotient: (z - s) H+(z) == H(z) - H(s). */
  lemma ShiftedH(h: Poly, h': Poly, s: C, k: Poly, z: C)
    requires |h'| == |h| >= 1 && Partial(h, s, k)
    requires h'[0] == ZERO && forall j :: 1 <= j < |h| ==> h'[j] == k[j - 1]
    ensures Mul(Sub(z, s), Eval(h', z)) == Sub(Eval(h, z), Eval(h, s))
  {
    Shifted(h', k, z, |h|);
    Quotient(h, s, k, z);
  }

  lemma {:induction false} Shifted(h: Poly, k: Poly, z: C, n: nat)
    requires 1 <= n <= |h| && n - 1 <= |k| && h[0] == ZERO && forall j :: 1 <= j < n ==> h[j] == k[j - 1]
    ensures EvalTo(h, z, n) == EvalTo(k, z, n - 1)
  {
    hide Mul;
    if n == 1 {
      MulUnits(z);
    } else {
      Shifted(h, k, z, n - 1);
    }
  }

  // ----- deflation -----

  /** Multiplying all coefficients by c multiplies the values. */
  lemma {:induction false} ScaledPoly(p: Poly, q: Poly, c: C, z: C, k: nat)
    requires |p| == |q| && k <= |p| && forall i :: 0 <= i < |p| ==> q[i] == Mul(c, p[i])
    ensures EvalTo(q, z, k) == Mul(c, EvalTo(p, z, k))
  {
    hide Mul;
    if k == 0 {
      MulUnits(c);
    } else {
      ScaledPoly(p, q, c, z, k - 1);
      MulDistributes(c, Mul(EvalTo(p, z, k - 1), z), p[k - 1]);
      MulAssociates(c, EvalTo(p, z, k - 1), z);
    }
  }

  /** (z - zs[0]) (z - zs[1]) ... */
  function Product(zs: seq<C>, z: C): C {
    if zs == [] then ONE else Mul(Product(zs[..|zs| - 1], z), Sub(z, zs[|zs| - 1]))
  }

  /** The sum of rs[i] times the product of the first i linear factors. */
  function Remainders(zs: seq<C>, rs: seq<C>, z: C): C
    requires |rs| <= |zs|
  {
    if rs == [] then ZERO
    else Add(Remainders(zs, rs[..|rs| - 1], z), Mul(rs[|rs| - 1], Product(zs[..|rs| - 1], z)))
  }

  /** p has been divided by the linear factors of zs, with the remainders rs, down to q. */
  ghost predicate Deflated(p: Poly, zs: seq<C>, rs: seq<C>, q: Poly) {
    |rs| == |zs| &&
    forall z :: Eval(p, z) == Add(Mul(Product(zs, z), Eval(q, z)), Remainders(zs, rs, z))
  }

  lemma NotDeflated(p: Poly)
    ensures Deflated(p, [], [], p)
  {
    hide Mul;
    forall z ensures Eval(p, z) == Add(Mul(Product([], z), Eval(p, z)), Remainders([], [], z)) {
      MulUnits(Eval(p, z));
    }
  }

  /** One more zero: the quotient at s has remainder r. */
  lemma DeflateOnce(p: Poly, zs: seq<C>, rs: seq<C>, q: Poly, s: C, k: Poly)
    requires Deflated(p, zs, rs, q) && |q| >= 1 && Partial(q, s, k)
    ensures Deflated(p, zs + [s], rs + [Eval(q, s)], k[..|q| - 1])
  {
    hide Mul;
    var zs', rs', k' := zs + [s], rs + [Eval(q, s)], k[..|q| - 1];
    assert zs'[..|zs'| - 1] == zs && rs'[..|rs'| - 1] == rs;
    forall z ensures Eval(p, z) == Add(Mul(Product(zs', z), Eval(k', z)), Remainders(zs', rs', z)) {
      Quotient(q, s, k, z);
      SameTo(k', k, z, |k'|);
      SameRemainders(zs, s, rs, z);
      var a, d, v := Product(zs, z), Sub(z, s), Eval(k', z);
      MulDistributes(a, Mul(d, v), Eval(q, s));
      MulAssociates(a, d, v);
      MulCommutes(a, Eval(q, s));
    }
  }

  lemma {:induction false} SameRemainders(zs: seq<C>, s: C, rs: seq<C>, z: C)
    requires |rs| <= |zs|
    ensures Remainders(zs + [s], rs, z) == Remainders(zs, rs, z)
  {
    hide Mul;
    if rs != [] {
      SameRemainders(zs, s, rs[..|rs| - 1], z);
      assert (zs + [s])[..|rs| - 1] == zs[..|rs| - 1];
    }
  }

  /** Without remainders the linear factors and the leading coefficient make up the polynomial. */
  lemma FactorsMakeUp(p: Poly, zs: seq<C>, rs: seq<C>, c: C, z: C)
    requires Deflated(p, zs, rs, [c]) && forall i :: 0 <= i < |rs| ==> rs[i] == ZERO
    ensures Eval(p, z) == Mul(Product(zs, z), c)
  {
    assert Eval([c], z) == c by {
      MulUnits(z);
      assert EvalTo([c], z, 1) == Add(Mul(EvalTo([c], z, 0), z), c);
    }
    hide Mul, Eval, Product;
    NoRemainders(zs, rs, z);
    MulUnits(Mul(Product(zs, z), c));
    assert Eval(p, z) == Add(Mul(Product(zs, z), Eval([c], z)), Remainders(zs, rs, z));
  }

  lemma {:induction false} NoRemainders(zs: seq<C>, rs: seq<C>, z: C)
    requires |rs| <= |zs| && forall i :: 0 <= i < |rs| ==> rs[i] == ZERO
    ensures Remainders(zs, rs, z) == ZERO
  {
    hide Mul;
    if rs != [] {
      NoRemainders(zs, rs[..|rs| - 1], z);
      MulUnits(Product(zs[..|rs| - 1], z));
    }
  }
}
