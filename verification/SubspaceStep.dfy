/** The backtracking of subsm: the step along d is cut so that the free variables stay within their bounds. */
module SubspaceStep {
  import opened BoxPath

  predicate Fits(v: Var, z: real) {
    (v.HasLower() ==> v.l <= z) && (v.HasUpper() ==> z <= v.u)
  }

  predicate Blocked(v: Var) {
    (v.HasLower() && v.g > 0.0) || (v.HasUpper() && v.g < 0.0)
  }

  /** Up to which fraction of the whole step the variable stays within its bounds; its direction is -g. */
  function Limit(v: Var): real {
    if Blocked(v) then v.MeetsAt() else 1.0
  }

  lemma LimitIsExact(v: Var, a: real)
    requires Fits(v, v.x) && 0.0 <= a <= 1.0
    ensures a <= Limit(v) <==> Fits(v, Moved(v.x, a, -v.g))
    ensures Limit(v) >= 0.0
    ensures Blocked(v) ==> Moved(v.x, Limit(v), -v.g) == v.Bound()
  {
    hide Moved, Var.MeetsAt;
    AwayFrom(v.x, a, -v.g);
    if Blocked(v) {
      if v.g > 0.0 {
        ReachLower(v, a);
        ReachLower(v, v.MeetsAt());
      } else {
        ReachUpper(v, a);
        ReachUpper(v, v.MeetsAt());
      }
      if a > v.MeetsAt() {
        Further(v.x, v.MeetsAt(), a, -v.g);
      }
    }
  }

  /** A longer step leads strictly further. */
  lemma Further(x: real, b: real, a: real, d: real)
    requires a > b
    ensures d > 0.0 ==> Moved(x, a, d) > Moved(x, b, d)
    ensures d < 0.0 ==> Moved(x, a, d) < Moved(x, b, d)
  {
    hide Moved;
    MovedOn(x, b, a - b, d);
    SignOfMove(a - b, d);
  }

  lemma MovedOn(x: real, b: real, e: real, d: real)
    ensures Moved(x, b + e, d) == Moved(x, b, d) + Moved(0.0, e, d)
  {
    assert (b + e) * d == b * d + e * d;
  }

  lemma SignOfMove(e: real, d: real)
    requires e > 0.0
    ensures d > 0.0 ==> Moved(0.0, e, d) > 0.0
    ensures d < 0.0 ==> Moved(0.0, e, d) < 0.0
  {
    if d > 0.0 {
      Positive(e, d);
    } else if d < 0.0 {
      Positive(e, -d);
      Opposite(e, d);
    }
  }

  lemma Opposite(e: real, d: real)
    ensures e * -d == -(e * d)
  {
  }

  lemma Positive(x: real, y: real)
    requires x > 0.0 && y > 0.0
    ensures x * y > 0.0
  {
  }

  /** The fraction a of the step leaves all variables within their bounds. */
  ghost predicate AllFit(vs: seq<Var>, ns: nat, a: real)
    requires |vs| == ns + 1
  {
    forall i :: 1 <= i <= ns ==> Fits(vs[i], Moved(vs[i].x, a, -vs[i].g))
  }

  /** The free variables and the step, as the backtracking finds them. */
  ghost predicate Setting(vs: seq<Var>, ind: seq<int>, ns: nat, n: nat) {
    && ns < |ind| && |vs| == ns + 1
    && (forall i :: 1 <= i <= ns ==> 1 <= ind[i] <= n && Fits(vs[i], vs[i].x))
    && (forall i, j :: 1 <= i < j <= ns ==> ind[i] != ind[j])
  }

  /** vs[i] is variable ind[i] with direction d[i]. */
  ghost predicate Describes(vs: seq<Var>, ind: array<int>, ns: nat, l: array<real>, u: array<real>, nbd: array<int>,
                            x: array<real>, d: array<real>)
    reads ind, l, u, nbd, x, d
  {
    && x.Length == l.Length == u.Length == nbd.Length >= 1 && ns < ind.Length && ns < d.Length
    && Setting(vs, ind[..], ns, x.Length - 1)
    && forall i :: 1 <= i <= ns ==>
      vs[i] == Var(x[ind[i]], l[ind[i]], u[ind[i]], nbd[ind[i]], -d[i], 0) && 0 <= nbd[ind[i]] <= 3
  }

  /** alpha is the largest fraction of the step that variables 1..k allow, and ibd one that allows no more. */
  ghost predicate Largest(vs: seq<Var>, k: nat, alpha: real, ibd: nat)
    requires k < |vs|
  {
    && 0.0 <= alpha <= 1.0
    && (forall i :: 1 <= i <= k ==> alpha <= Limit(vs[i]))
    && (alpha < 1.0 ==> 1 <= ibd <= k && Blocked(vs[ibd]) && alpha == Limit(vs[ibd]))
  }

  /** The fraction that variable i leaves of alpha; temp1 is the value of the previous variable. */
  method Tighten(i: nat, alpha: real, temp1: real, ind: array<int>, ns: nat, l: array<real>, u: array<real>,
                 nbd: array<int>, x: array<real>, d: array<real>, ghost vs: seq<Var>)
    returns (fraction: real)
    requires Describes(vs, ind, ns, l, u, nbd, x, d) && 1 <= i <= ns && 0.0 <= alpha <= temp1
    ensures fraction < alpha <==> Limit(vs[i]) < alpha && Blocked(vs[i])
    ensures fraction < alpha ==> fraction == Limit(vs[i])
  {
    ghost var v := vs[i];
    fraction := temp1;
    var k := ind[i];
    var dk := d[i];
    if nbd[k] != 0 {
      if dk < 0.0 && nbd[k] <= 2 {
        var temp2 := l[k] - x[k];
        FractionOf(v.x - v.l, v.g, alpha);
        if temp2 >= 0.0 {
          fraction := 0.0;
        } else if dk * alpha < temp2 {
          fraction := temp2 / dk;
        }
      } else if dk > 0.0 && nbd[k] >= 2 {
        var temp2 := u[k] - x[k];
        FractionOf(v.u - v.x, -v.g, alpha);
        if temp2 <= 0.0 {
          fraction := 0.0;
        } else if dk * alpha > temp2 {
          fraction := temp2 / dk;
        }
      }
    }
  }

  /** Comparing the step with the distance to the bound is comparing the fractions. */
  lemma FractionOf(distance: real, g: real, alpha: real)
    requires g > 0.0 && distance >= 0.0
    ensures distance / g >= 0.0 && (distance == 0.0 ==> distance / g == 0.0)
    ensures g * alpha > distance <==> distance / g < alpha
    ensures -distance / -g == distance / g && -g * alpha == -(g * alpha)
  {
    var q := distance / g;
    Quotient(distance, g, q);
    Reach(distance, g, q);
    assert q * g == distance;
    assert (-g) * q == -distance;
    Quotient(-distance, -g, q);
    if alpha > q {
      Positive(alpha - q, g);
      assert (alpha - q) * g == alpha * g - q * g;
    } else if alpha < q {
      Positive(q - alpha, g);
      assert (q - alpha) * g == q * g - alpha * g;
    }
  }

  lemma Quotient(a: real, b: real, q: real)
    requires b != 0.0 && a == b * q
    ensures a / b == q
  {
  }

  /** The backtracking at the end of subsm. */
  method Backtrack(ns: nat, ind: array<int>, l: array<real>, u: array<real>, nbd: array<int>, x: array<real>,
                   d: array<real>, ghost vs: seq<Var>)
    returns (iword: int, ghost alpha: real)
    requires Describes(vs, ind, ns, l, u, nbd, x, d) && x != l && x != u && x != d
    modifies x, d
    ensures 0.0 <= alpha <= 1.0 && (iword == 1 <==> alpha < 1.0)
    ensures forall a :: 0.0 <= a <= 1.0 ==> (a <= alpha <==> AllFit(vs, ns, a))
    ensures forall i :: 1 <= i <= ns ==> x[ind[i]] == Moved(vs[i].x, alpha, -vs[i].g) && Fits(vs[i], x[ind[i]])
    ensures forall k :: 0 <= k < x.Length && k !in ind[1..ns + 1] ==> x[k] == old(x[k])
  {
    var step, ibd := LargestStep(ns, ind, l, u, nbd, x, d, vs);
    alpha := step;
    ToBound(step, ibd, ns, ind, l, u, nbd, x, d, vs);
    MoveFree(step, ns, ind, x, d, vs);
    iword := if step < 1.0 then 1 else 0;
    forall a | 0.0 <= a <= 1.0 ensures a <= alpha <==> AllFit(vs, ns, a) {
      LargestIsExact(vs, ns, alpha, ibd, a);
    }
    LargestIsExact(vs, ns, alpha, ibd, alpha);
  }

  lemma LargestIsExact(vs: seq<Var>, ns: nat, alpha: real, ibd: nat, a: real)
    requires |vs| == ns + 1 && Largest(vs, ns, alpha, ibd) && 0.0 <= a <= 1.0
    requires forall i :: 1 <= i <= ns ==> Fits(vs[i], vs[i].x)
    ensures a <= alpha <==> AllFit(vs, ns, a)
  {
    hide Moved, Limit, Fits;
    forall i | 1 <= i <= ns ensures a <= Limit(vs[i]) <==> Fits(vs[i], Moved(vs[i].x, a, -vs[i].g)) {
      LimitIsExact(vs[i], a);
    }
  }

  /** The first loop of the backtracking. */
  method LargestStep(ns: nat, ind: array<int>, l: array<real>, u: array<real>, nbd: array<int>, x: array<real>,
                     d: array<real>, ghost vs: seq<Var>)
    returns (alpha: real, ibd: nat)
    requires Describes(vs, ind, ns, l, u, nbd, x, d)
    ensures Largest(vs, ns, alpha, ibd)
  {
    hide Limit, Blocked, Describes;
    assert |vs| == ns + 1 by { SettingSize(vs, ind, ns, l, u, nbd, x, d); }
    alpha, ibd := 1.0, 0;
    var temp1 := alpha;
    var i := 1;
    while i <= ns
      invariant 1 <= i <= ns + 1 && alpha <= temp1 && Largest(vs, i - 1, alpha, ibd)
    {
      temp1 := Tighten(i, alpha, temp1, ind, ns, l, u, nbd, x, d, vs);
      LimitRange(vs, i, ind, ns, l, u, nbd, x, d);
      if temp1 < alpha {
        alpha := temp1;
        ibd := i;
      }
      i := i + 1;
    }
  }

  lemma SettingSize(vs: seq<Var>, ind: array<int>, ns: nat, l: array<real>, u: array<real>, nbd: array<int>,
                    x: array<real>, d: array<real>)
    requires Describes(vs, ind, ns, l, u, nbd, x, d)
    ensures |vs| == ns + 1
  {
  }

  lemma LimitRange(vs: seq<Var>, i: nat, ind: array<int>, ns: nat, l: array<real>, u: array<real>, nbd: array<int>,
                   x: array<real>, d: array<real>)
    requires Describes(vs, ind, ns, l, u, nbd, x, d) && 1 <= i <= ns
    ensures i < |vs| && Limit(vs[i]) >= 0.0 && (!Blocked(vs[i]) ==> Limit(vs[i]) == 1.0)
  {
    LimitIsExact(vs[i], 0.0);
  }

  /** Puts the variable that blocks the step on its bound. */
  method ToBound(alpha: real, ibd: nat, ns: nat, ind: array<int>, l: array<real>, u: array<real>, nbd: array<int>,
                 x: array<real>, d: array<real>, ghost vs: seq<Var>)
    requires Describes(vs, ind, ns, l, u, nbd, x, d) && x != l && x != u && x != d && Largest(vs, ns, alpha, ibd)
    modifies x, d
    ensures forall i :: 1 <= i <= ns ==> Moved(x[ind[i]], alpha, d[i]) == Moved(vs[i].x, alpha, -vs[i].g)
    ensures forall k :: 0 <= k < x.Length && k !in ind[1..ns + 1] ==> x[k] == old(x[k])
  {
    hide Moved, Limit, Var.MeetsAt;
    if alpha < 1.0 {
      var dk := d[ibd];
      var k := ind[ibd];
      LimitIsExact(vs[ibd], 0.0);
      assert ind[1..ns + 1][ibd - 1] == k;
      if dk > 0.0 {
        x[k] := u[k];
        d[ibd] := 0.0;
      } else if dk < 0.0 {
        x[k] := l[k];
        d[ibd] := 0.0;
      }
      NoMove(x[k], alpha);
    }
  }

  lemma NoMove(x: real, s: real)
    ensures Moved(x, s, 0.0) == x
  {
  }

  /** The last loop of the backtracking. */
  method MoveFree(alpha: real, ns: nat, ind: array<int>, x: array<real>, d: array<real>, ghost vs: seq<Var>)
    requires x != d && x.Length >= 1 && ns < ind.Length && ns < d.Length && Setting(vs, ind[..], ns, x.Length - 1)
    modifies x
    ensures forall i :: 1 <= i <= ns ==> x[ind[i]] == Moved(old(x[ind[i]]), alpha, d[i])
    ensures forall k :: 0 <= k < x.Length && k !in ind[1..ns + 1] ==> x[k] == old(x[k])
  {
    var i := 1;
    while i <= ns
      invariant 1 <= i <= ns + 1
      invariant forall k :: 1 <= k < i ==> x[ind[k]] == Moved(old(x[ind[k]]), alpha, d[k])
      invariant forall k :: i <= k <= ns ==> x[ind[k]] == old(x[ind[k]])
      invariant forall k :: 0 <= k < x.Length && k !in ind[1..ns + 1] ==> x[k] == old(x[k])
    {
      assert ind[1..ns + 1][i - 1] == ind[i];
      x[ind[i]] := x[ind[i]] + alpha * d[i];
      i := i + 1;
    }
  }
}
