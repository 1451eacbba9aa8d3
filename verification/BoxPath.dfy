/** The box of the bounds, and the path of the projected gradient in it with its breakpoints. */
module BoxPath {
  import opened BreakpointHeap

  /** One variable: its value, bounds, kind of bounds, gradient, and the status before the search. */
  datatype Var = Var(x: real, l: real, u: real, nbd: int, g: real, status: int) {
    predicate HasLower() {
      nbd == 1 || nbd == 2
    }

    predicate HasUpper() {
      nbd == 2 || nbd == 3
    }

    /** The value lies within the bounds, and the status tells the variables without bounds and those without choice. */
    predicate Sane() {
      && 0 <= nbd <= 3
      && (HasLower() ==> l <= x) && (HasUpper() ==> x <= u)
      && (status == -1 <==> nbd == 0)
      && (status == 3 <==> nbd == 2 && u - l <= 0.0)
    }

    /** The point of the bounds nearest to z. */
    function Clip(z: real): real {
      if HasLower() && z <= l then l else if HasUpper() && z >= u then u else z
    }

    /** Where the variable is on the path at parameter s. */
    function Path(s: real): real {
      Clip(Moved(x, s, -g))
    }

    /** The status when the search starts. */
    function Status(): int {
      if status == 3 || status == -1 then status
      else if HasLower() && x - l <= 0.0 then (if -g <= 0.0 then 1 else 0)
      else if HasUpper() && u - x <= 0.0 then (if -g >= 0.0 then 2 else 0)
      else if g == 0.0 then -3 else 0
    }

    predicate Moves() {
      Status() == 0 || Status() == -1
    }

    function Direction(): real {
      if Moves() then -g else 0.0
    }

    /** Moving in its direction, the variable meets a bound. */
    predicate Meets() {
      Moves() && ((HasLower() && -g < 0.0) || (HasUpper() && -g > 0.0))
    }

    /** The parameter at which it does. */
    function MeetsAt(): real {
      if g > 0.0 then (x - l) / g else if g < 0.0 then (u - x) / -g else 0.0
    }

    function Bound(): real {
      if g > 0.0 then l else u
    }
  }

  function Moved(x: real, s: real, d: real): real {
    x + s * d
  }

  /** The path of a variable is a straight line up to the bound it meets, and constant from there on. */
  lemma PathIsPiecewiseLinear(v: Var, s: real)
    requires v.Sane() && s >= 0.0
    ensures v.Meets() ==> v.MeetsAt() >= 0.0
    ensures v.Path(s) == if v.Meets() && s >= v.MeetsAt() then v.Bound() else Moved(v.x, s, v.Direction())
  {
    hide Moved, Var.MeetsAt;
    AwayFrom(v.x, s, -v.g);
    AwayFrom(v.x, s, 0.0);
    if v.Meets() {
      if v.g > 0.0 {
        ReachLower(v, s);
      } else {
        ReachUpper(v, s);
      }
    }
  }

  lemma AwayFrom(x: real, s: real, d: real)
    requires s >= 0.0
    ensures d >= 0.0 ==> Moved(x, s, d) >= x
    ensures d <= 0.0 ==> Moved(x, s, d) <= x
  {
  }

  lemma ReachLower(v: Var, s: real)
    requires s >= 0.0 && v.g > 0.0 && v.x >= v.l
    ensures v.MeetsAt() >= 0.0
    ensures if s >= v.MeetsAt() then Moved(v.x, s, -v.g) <= v.l else Moved(v.x, s, -v.g) >= v.l
    ensures s == v.MeetsAt() ==> Moved(v.x, s, -v.g) == v.l
  {
    Reach(v.x - v.l, v.g, s);
    assert s * -v.g == -(s * v.g);
  }

  lemma ReachUpper(v: Var, s: real)
    requires s >= 0.0 && v.g < 0.0 && v.u >= v.x
    ensures v.MeetsAt() >= 0.0
    ensures if s >= v.MeetsAt() then Moved(v.x, s, -v.g) >= v.u else Moved(v.x, s, -v.g) <= v.u
    ensures s == v.MeetsAt() ==> Moved(v.x, s, -v.g) == v.u
  {
    Reach(v.u - v.x, -v.g, s);
  }

  lemma Sign(s: real, g: real)
    requires s >= 0.0 && g > 0.0
    ensures s * g >= 0.0
  {
  }

  /** A distance is covered at speed g > 0 in time distance / g. */
  lemma Reach(distance: real, g: real, s: real)
    requires distance >= 0.0 && g > 0.0 && s >= 0.0
    ensures distance / g >= 0.0
    ensures s >= distance / g ==> s * g >= distance
    ensures s <= distance / g ==> s * g <= distance
  {
    var q := distance / g;
    assert q * g == distance;
    if s >= q {
      Sign(s - q, g);
      assert (s - q) * g == s * g - q * g;
    }
    if s <= q {
      Sign(q - s, g);
      assert (q - s) * g == q * g - s * g;
    }
    if q < 0.0 {
      Sign(-q, g);
    }
  }

  /** Points of the path lie within the bounds, and the path starts where the variable is. */
  lemma PathWithinBounds(v: Var, s: real)
    requires v.Sane() && s >= 0.0
    ensures v.HasLower() ==> v.l <= v.Path(s)
    ensures v.HasUpper() ==> v.Path(s) <= v.u
    ensures v.Path(0.0) == v.x
  {
    assert Moved(v.x, 0.0, -v.g) == v.x;
  }

  // ----- the breakpoints -----

  /** The breakpoints of variables 1..k, in ascending order of the variables. */
  ghost function Found(vs: seq<Var>, k: nat): seq<Break>
    requires k < |vs|
  {
    if k == 0 then []
    else if vs[k].Meets() then Found(vs, k - 1) + [Break(vs[k].MeetsAt(), k)]
    else Found(vs, k - 1)
  }

  ghost predicate IsBreak(vs: seq<Var>, k: nat, b: Break) {
    1 <= b.variable <= k < |vs| && vs[b.variable].Meets() && b.at == vs[b.variable].MeetsAt()
  }

  lemma {:induction false} FoundExactly(vs: seq<Var>, k: nat, b: Break)
    requires k < |vs|
    ensures multiset(Found(vs, k))[b] == if IsBreak(vs, k, b) then 1 else 0
  {
    if k > 0 {
      FoundExactly(vs, k - 1, b);
    }
  }

  lemma {:induction false} FoundAll(vs: seq<Var>, k: nat)
    requires k < |vs|
    ensures |Found(vs, k)| <= k
    ensures |Found(vs, k)| == k ==> forall i :: 1 <= i <= k ==> vs[i].Meets()
  {
    if k > 0 {
      FoundAll(vs, k - 1);
    }
  }

  lemma TwiceInMultiset(b: seq<Break>, i: int, j: int)
    requires 0 <= i < j < |b| && b[i] == b[j]
    ensures multiset(b)[b[i]] >= 2
  {
    assert b == b[..j] + b[j..];
    assert b[..j][i] == b[i] && b[j..][0] == b[i];
    assert b[i] in multiset(b[..j]) && b[i] in multiset(b[j..]);
  }

  /** One variable at the end of the search. */
  lemma PathReached(v: Var, i: nat, rem: multiset<Break>, tsum0: real, tsum: real, x0: real, d: real, w: int)
    requires v.Sane() && 0.0 <= tsum0 <= tsum
    requires v.Meets() && Break(v.MeetsAt(), i) in rem ==> tsum <= v.MeetsAt()
    requires if v.Meets() && Break(v.MeetsAt(), i) !in rem then
        v.MeetsAt() <= tsum0 && d == 0.0 && x0 == v.Bound() && w == if v.g > 0.0 then 1 else 2
      else d == v.Direction() && x0 == v.x && w == v.Status()
    ensures Moved(x0, tsum, d) == v.Path(tsum)
    ensures w == 1 ==> v.HasLower() && Moved(x0, tsum, d) == v.l
    ensures w == 2 ==> v.HasUpper() && Moved(x0, tsum, d) == v.u
  {
    PathIsPiecewiseLinear(v, tsum);
    if v.Meets() && tsum == v.MeetsAt() {
      if v.g > 0.0 {
        ReachLower(v, tsum);
      } else {
        ReachUpper(v, tsum);
      }
    }
  }
}
