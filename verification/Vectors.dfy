/** Inner products of vectors, in full and restricted to a set of components. */
module Vectors {
  type Vector = seq<real>

  function Times(x: real, y: real): real {
    x * y
  }

  /** The product of the components numbered k = 1, 2, ... */
  function Term(u: Vector, v: Vector, k: int): real
    requires 1 <= k <= |u| && |v| == |u|
  {
    Times(u[k - 1], v[k - 1])
  }

  /** The sum of the products of components 1..n. */
  function DotTo(u: Vector, v: Vector, n: nat): real
    requires n <= |u| == |v|
  {
    if n == 0 then 0.0 else DotTo(u, v, n - 1) + Term(u, v, n)
  }

  function Dot(u: Vector, v: Vector): real
    requires |u| == |v|
  {
    DotTo(u, v, |u|)
  }

  lemma NoTerms(u: Vector, v: Vector)
    requires |u| == |v|
    ensures DotTo(u, v, 0) == 0.0
  {
  }

  /** One more product; a is component j + 1 of u. */
  lemma OneMoreTerm(u: Vector, v: Vector, j: nat, a: real)
    requires j < |u| == |v| && a == u[j]
    ensures DotTo(u, v, j + 1) == DotTo(u, v, j) + a * v[j]
  {
  }

  function Scaled(a: real, v: Vector): (r: Vector)
    ensures |r| == |v| && forall i :: 0 <= i < |v| ==> r[i] == a * v[i]
  {
    seq(|v|, i requires 0 <= i < |v| => a * v[i])
  }

  function Minus(u: Vector, v: Vector): (r: Vector)
    requires |u| == |v|
    ensures |r| == |u| && forall i :: 0 <= i < |u| ==> r[i] == u[i] - v[i]
  {
    seq(|u|, i requires 0 <= i < |u| => u[i] - v[i])
  }

  lemma {:induction false} DotScaleTo(a: real, u: Vector, v: Vector, n: nat)
    requires n <= |u| == |v|
    ensures DotTo(Scaled(a, u), v, n) == a * DotTo(u, v, n)
  {
    if n > 0 {
      DotScaleTo(a, u, v, n - 1);
      ScaledTerm(a, u[n - 1], v[n - 1], DotTo(u, v, n - 1));
    }
  }

  lemma ScaledTerm(a: real, p: real, q: real, t: real)
    ensures a * t + (a * p) * q == a * (t + p * q)
  {
    assert (a * p) * q == a * (p * q);
  }

  lemma {:induction false} DotSymmetricTo(u: Vector, v: Vector, n: nat)
    requires n <= |u| == |v|
    ensures DotTo(u, v, n) == DotTo(v, u, n)
  {
    if n > 0 {
      DotSymmetricTo(u, v, n - 1);
    }
  }

  lemma {:induction false} DotMinusTo(u: Vector, v: Vector, w: Vector, n: nat)
    requires n <= |u| == |v| == |w|
    ensures DotTo(u, Minus(v, w), n) == DotTo(u, v, n) - DotTo(u, w, n)
  {
    if n > 0 {
      DotMinusTo(u, v, w, n - 1);
      var p, q, r := u[n - 1], v[n - 1], w[n - 1];
      assert p * (q - r) == p * q - p * r;
    }
  }

  lemma DotScale(a: real, u: Vector, v: Vector)
    requires |u| == |v|
    ensures Dot(Scaled(a, u), v) == a * Dot(u, v) == Dot(u, Scaled(a, v))
    ensures Dot(u, v) == Dot(v, u)
  {
    DotScaleTo(a, u, v, |u|);
    DotScaleTo(a, v, u, |u|);
    DotSymmetricTo(u, Scaled(a, v), |u|);
    DotSymmetricTo(u, v, |u|);
  }

  lemma DotMinus(u: Vector, v: Vector, w: Vector)
    requires |u| == |v| == |w|
    ensures Dot(u, Minus(v, w)) == Dot(u, v) - Dot(u, w)
  {
    DotMinusTo(u, v, w, |u|);
  }

  function Plus(u: Vector, v: Vector): (r: Vector)
    requires |u| == |v|
    ensures |r| == |u| && forall i :: 0 <= i < |u| ==> r[i] == u[i] + v[i]
  {
    seq(|u|, i requires 0 <= i < |u| => u[i] + v[i])
  }

  lemma {:induction false} DotPlusTo(u: Vector, v: Vector, w: Vector, n: nat)
    requires n <= |u| == |v| == |w|
    ensures DotTo(u, Plus(v, w), n) == DotTo(u, v, n) + DotTo(u, w, n)
  {
    if n > 0 {
      DotPlusTo(u, v, w, n - 1);
      var p, q, r := u[n - 1], v[n - 1], w[n - 1];
      assert p * (q + r) == p * q + p * r;
    }
  }

  lemma DotPlus(u: Vector, v: Vector, w: Vector)
    requires |u| == |v| == |w|
    ensures Dot(u, Plus(v, w)) == Dot(u, v) + Dot(u, w)
  {
    DotPlusTo(u, v, w, |u|);
  }

  lemma DotSymmetric(u: Vector, v: Vector)
    requires |u| == |v|
    ensures Dot(u, v) == Dot(v, u)
  {
    DotSymmetricTo(u, v, |u|);
  }

  // ----- restriction to a set of components -----

  /** The part of DotTo that the components in s contribute. */
  ghost function DotInTo(u: Vector, v: Vector, s: set<int>, n: nat): real
    requires n <= |u| == |v|
  {
    if n == 0 then 0.0 else DotInTo(u, v, s, n - 1) + if n in s then Term(u, v, n) else 0.0
  }

  ghost function DotIn(u: Vector, v: Vector, s: set<int>): real
    requires |u| == |v|
  {
    DotInTo(u, v, s, |u|)
  }

  ghost predicate Components(l: seq<int>, n: nat) {
    forall i :: 0 <= i < |l| ==> 1 <= l[i] <= n
  }

  ghost predicate Distinct(l: seq<int>) {
    forall i, j :: 0 <= i < j < |l| ==> l[i] != l[j]
  }

  /** The sum of the products of the listed components, in the order of the list. */
  function DotOver(u: Vector, v: Vector, l: seq<int>): real
    requires |u| == |v| && forall i :: 0 <= i < |l| ==> 1 <= l[i] <= |u|
  {
    if l == [] then 0.0 else DotOver(u, v, l[..|l| - 1]) + Term(u, v, l[|l| - 1])
  }

  ghost function Elements(l: seq<int>): set<int> {
    set x | x in l
  }

  lemma {:induction false} DotInUnionTo(u: Vector, v: Vector, s: set<int>, t: set<int>, n: nat)
    requires n <= |u| == |v| && s !! t
    ensures DotInTo(u, v, s + t, n) == DotInTo(u, v, s, n) + DotInTo(u, v, t, n)
  {
    if n > 0 {
      DotInUnionTo(u, v, s, t, n - 1);
    }
  }

  lemma DotInUnion(u: Vector, v: Vector, s: set<int>, t: set<int>)
    requires |u| == |v| && s !! t
    ensures DotIn(u, v, s + t) == DotIn(u, v, s) + DotIn(u, v, t)
  {
    DotInUnionTo(u, v, s, t, |u|);
  }

  lemma {:induction false} DotInEmpty(u: Vector, v: Vector, s: set<int>, n: nat)
    requires n <= |u| == |v| && forall k :: 1 <= k <= n ==> k !in s
    ensures DotInTo(u, v, s, n) == 0.0
  {
    if n > 0 {
      DotInEmpty(u, v, s, n - 1);
    }
  }

  lemma {:induction false} DotInOne(u: Vector, v: Vector, k: int, n: nat)
    requires n <= |u| == |v| && 1 <= k <= |u|
    ensures DotInTo(u, v, {k}, n) == if k <= n then Term(u, v, k) else 0.0
  {
    if n > 0 {
      DotInOne(u, v, k, n - 1);
    }
  }

  /** Summing over a list without repetitions is summing over the set of its entries. */
  lemma {:induction false} DotOverIsDotIn(u: Vector, v: Vector, l: seq<int>)
    requires |u| == |v| && Components(l, |u|) && Distinct(l)
    ensures DotOver(u, v, l) == DotIn(u, v, Elements(l))
  {
    if l == [] {
      DotInEmpty(u, v, Elements(l), |u|);
    } else {
      var l', k := l[..|l| - 1], l[|l| - 1];
      DotOverIsDotIn(u, v, l');
      assert l == l' + [k];
      assert Elements(l) == Elements(l') + {k};
      DotInUnion(u, v, Elements(l'), {k});
      DotInOne(u, v, k, |u|);
    }
  }

  /** Components leave and enter a set: the restricted product changes by theirs. */
  lemma DotInChange(u: Vector, v: Vector, s: set<int>, enter: set<int>, leave: set<int>)
    requires |u| == |v| && s !! enter && leave <= s
    ensures DotIn(u, v, s - leave + enter) == DotIn(u, v, s) + DotIn(u, v, enter) - DotIn(u, v, leave)
  {
    DotInUnion(u, v, s - leave, enter);
    DotInUnion(u, v, s - leave, leave);
    assert s - leave + leave == s;
  }

  /** A sum of squares is zero only if all its terms are. */
  lemma {:induction false} SquaresVanish(u: Vector, s: set<int>, n: nat)
    requires n <= |u|
    ensures DotInTo(u, u, s, n) >= 0.0
    ensures DotInTo(u, u, s, n) == 0.0 ==> forall k :: 1 <= k <= n && k in s ==> u[k - 1] == 0.0
  {
    hide Term;
    if n > 0 {
      SquaresVanish(u, s, n - 1);
      SquareSign(u, n);
    }
  }

  lemma SquareSign(u: Vector, k: int)
    requires 1 <= k <= |u|
    ensures Term(u, u, k) >= 0.0 && (u[k - 1] != 0.0 ==> Term(u, u, k) > 0.0)
  {
    hide Times;
    SquarePositive(u[k - 1], u[k - 1]);
  }

  lemma SquarePositive(x: real, y: real)
    requires x == y
    ensures Times(x, y) >= 0.0 && (x != 0.0 ==> Times(x, y) > 0.0)
  {
    hide Times;
    if x > 0.0 {
      TimesPositive(x, y);
    } else if x < 0.0 {
      TimesPositive(-x, -y);
      TimesNegated(x, y);
    } else {
      TimesZero(y);
    }
  }

  lemma TimesPositive(x: real, y: real)
    requires x > 0.0 && y > 0.0
    ensures Times(x, y) > 0.0
  {
  }

  lemma TimesNegated(x: real, y: real)
    ensures Times(-x, -y) == Times(x, y)
  {
  }

  lemma TimesZero(y: real)
    ensures Times(0.0, y) == 0.0 == Times(y, 0.0)
  {
  }

  lemma {:induction false} DotInVanishes(u: Vector, v: Vector, s: set<int>, n: nat)
    requires n <= |u| == |v| && forall k :: 1 <= k <= n && k in s ==> v[k - 1] == 0.0
    ensures DotInTo(u, v, s, n) == 0.0
  {
    if n > 0 {
      DotInVanishes(u, v, s, n - 1);
    }
  }

  lemma {:induction false} SelfDotNotNegative(u: Vector, n: nat)
    requires n <= |u|
    ensures DotTo(u, u, n) >= 0.0
    ensures DotTo(u, u, n) == 0.0 <==> forall k :: 0 <= k < n ==> u[k] == 0.0
  {
    hide Times;
    if n > 0 {
      SelfDotNotNegative(u, n - 1);
      SquarePositive(u[n - 1], u[n - 1]);
      TimesZero(u[n - 1]);
    }
  }
}
