/** The quadratic model along the path of the projected gradient. */
module ModelPath {
  import opened Basics
  import opened BreakpointHeap
  import opened Blas
  import opened BoxPath
  import opened PassingOrder
  import opened QuadraticModel
  import opened Vectors

  // ----- the model along the path -----

  ghost function Gradient(vs: seq<Var>): (r: Vector)
    requires |vs| > 0
    ensures |r| == |vs| - 1 && forall i :: 0 <= i < |r| ==> r[i] == vs[i + 1].g
  {
    seq(|vs| - 1, i requires 0 <= i < |vs| - 1 => vs[i + 1].g)
  }

  /** How far the variables have moved at parameter s. */
  ghost function Displaced(vs: seq<Var>, s: real): (r: Vector)
    requires |vs| > 0
    ensures |r| == |vs| - 1 && forall i :: 0 <= i < |r| ==> r[i] == vs[i + 1].Path(s) - vs[i + 1].x
  {
    seq(|vs| - 1, i requires 0 <= i < |vs| - 1 => vs[i + 1].Path(s) - vs[i + 1].x)
  }

  /** The direction of one variable on the path from parameter s on. */
  ghost function HeadingOf(v: Var, s: real): real {
    if v.Meets() && v.MeetsAt() <= s then 0.0 else v.Direction()
  }

  /** The direction of the path from parameter s on. */
  ghost function Heading(vs: seq<Var>, s: real): (r: Vector)
    requires |vs| > 0
    ensures |r| == |vs| - 1 && forall i :: 0 <= i < |r| ==> r[i] == HeadingOf(vs[i + 1], s)
  {
    seq(|vs| - 1, i requires 0 <= i < |vs| - 1 => HeadingOf(vs[i + 1], s))
  }

  /** The slope of the model on the path from parameter s on. */
  ghost function Rise(vs: seq<Var>, q: Model, s: real): real
    requires |vs| > 0 && Proper(q, |vs| - 1)
  {
    SlopeAt(q, Gradient(vs), Heading(vs, s), Displaced(vs, s))
  }

  /** The model has a positive curvature in every direction. */
  ghost predicate Definite(q: Model, n: nat)
    requires Proper(q, n)
  {
    forall v: Vector :: |v| == n && v != Zeros(n) ==> Bilinear(q, v, v) > 0.0
  }

  /** The model does not rise anywhere before s. */
  ghost predicate Falling(vs: seq<Var>, q: Model, s: real)
    requires |vs| > 0 && Proper(q, |vs| - 1)
  {
    forall r :: 0.0 <= r < s ==> Rise(vs, q, r) <= 0.0
  }

  /** h keeps some components of d, the others are zero. */
  ghost predicate IsPart(h: Vector, d: Vector) {
    |h| == |d| && forall i :: 0 <= i < |d| ==> h[i] == 0.0 || h[i] == d[i]
  }

  // ----- where the search ends -----

  /** The breakpoints in the order in which cauchy takes them. */
  ghost function Passing(vs: seq<Var>): seq<Break>
    requires |vs| > 0
  {
    Order(Found(vs, |vs| - 1))
  }

  ghost predicate Has(bs: seq<Break>, i: int) {
    exists j :: 0 <= j < |bs| && bs[j].variable == i
  }

  /** The first direction of the path with the variables of bs stopped. */
  ghost function Stopped(vs: seq<Var>, bs: seq<Break>): (r: Vector)
    requires |vs| > 0
    ensures |r| == |vs| - 1
    ensures forall i :: 0 <= i < |r| ==> r[i] == if Has(bs, i + 1) then 0.0 else vs[i + 1].Direction()
  {
    seq(|vs| - 1, i requires 0 <= i < |vs| - 1 => if Has(bs, i + 1) then 0.0 else vs[i + 1].Direction())
  }

  /** The slope at breakpoint k of the order while only the variables of those before it are stopped. */
  ghost function PartialRise(vs: seq<Var>, q: Model, k: nat): real
    requires |vs| > 0 && Proper(q, |vs| - 1) && k < |Passing(vs)|
  {
    SlopeAt(q, Gradient(vs), Stopped(vs, Passing(vs)[..k]), Displaced(vs, Passing(vs)[k].at))
  }

  /** Breakpoint k is at the same place as the one before it in the order. */
  ghost predicate Ties(vs: seq<Var>, k: nat)
    requires |vs| > 0
  {
    1 <= k < |Passing(vs)| && Passing(vs)[k - 1].at == Passing(vs)[k].at
  }

  /**
   * Of the variables that meet their bounds at the place of breakpoint k only some come before it. With these
   * stopped the model rises from there, with all stopped it falls, as it has done up to there.
   */
  ghost predicate ShortAt(vs: seq<Var>, q: Model, k: nat)
    requires |vs| > 0 && Proper(q, |vs| - 1)
  {
    && Ties(vs, k) && PartialRise(vs, q, k) > 0.0
    && Rise(vs, q, Passing(vs)[k].at) < 0.0 && Falling(vs, q, Passing(vs)[k].at)
  }

  ghost predicate EndsShort(vs: seq<Var>, q: Model)
    requires |vs| > 0 && Proper(q, |vs| - 1)
  {
    exists k: nat :: ShortAt(vs, q, k)
  }

  /** k is the first such breakpoint. */
  ghost predicate FirstShort(vs: seq<Var>, q: Model, k: nat)
    requires |vs| > 0 && Proper(q, |vs| - 1)
  {
    ShortAt(vs, q, k) && forall j: nat :: j < k ==> !ShortAt(vs, q, j)
  }

  /**
   * The path does not rise before s, and s is where it first rises if and only if there is no breakpoint at which
   * the search ends short; otherwise s is the first of these.
   */
  ghost predicate EndsAt(vs: seq<Var>, q: Model, s: real)
    requires |vs| > 0 && Proper(q, |vs| - 1)
  {
    && Falling(vs, q, s)
    && (Rise(vs, q, s) >= 0.0 <==> !EndsShort(vs, q))
    && (EndsShort(vs, q) ==> exists k: nat :: FirstShort(vs, q, k) && Passing(vs)[k].at == s)
  }

  /** The model does not rise at any of the first m breakpoints with only some of the variables there stopped. */
  ghost predicate NoneShort(vs: seq<Var>, q: Model, m: nat)
    requires |vs| > 0 && Proper(q, |vs| - 1)
  {
    forall k: nat :: k < m && Ties(vs, k) ==> PartialRise(vs, q, k) <= 0.0
  }

  /** If no two variables meet their bounds at once, the search cannot end short. */
  lemma NoTiesNoneShort(vs: seq<Var>, q: Model)
    requires |vs| > 0 && Proper(q, |vs| - 1)
    requires forall i, j :: 1 <= i < j < |vs| && vs[i].Meets() && vs[j].Meets() ==> vs[i].MeetsAt() != vs[j].MeetsAt()
    ensures !EndsShort(vs, q)
  {
    hide Rise, PartialRise, Falling, Order, IsSymmetric, Var.Meets, Var.MeetsAt;
    var all, order := Found(vs, |vs| - 1), Passing(vs);
    forall k: nat ensures !Ties(vs, k) {
      if Ties(vs, k) {
        OrderAscends(all);
        BreakIn(vs, order, k - 1);
        BreakIn(vs, order, k);
        if order[k - 1] == order[k] {
          TwiceInMultiset(order, k - 1, k);
          FoundExactly(vs, |vs| - 1, order[k]);
        }
      }
    }
  }

  /** The entries of a list of all breakpoints are breakpoints. */
  lemma BreakIn(vs: seq<Var>, order: seq<Break>, k: nat)
    requires |vs| > 0 && multiset(order) == multiset(Found(vs, |vs| - 1)) && k < |order|
    ensures IsBreak(vs, |vs| - 1, order[k])
  {
    assert order[k] in multiset(order);
    FoundExactly(vs, |vs| - 1, order[k]);
  }

  lemma MovedBetween(x: real, a: real, b: real, d: real)
    ensures Moved(x, b, d) - Moved(x, a, d) == Times(b - a, d)
  {
    assert (b - a) * d == b * d - a * d;
  }

  /** Between two breakpoints the slope grows in proportion. */
  lemma RiseOnSegment(vs: seq<Var>, q: Model, d: Vector, s: real, r: real)
    requires |vs| > 0 && Proper(q, |vs| - 1) && |d| == |vs| - 1
    requires Heading(vs, r) == d && Displaced(vs, r) == Plus(Displaced(vs, s), Scaled(r - s, d))
    ensures Rise(vs, q, r) ==
            SlopeAt(q, Gradient(vs), d, Displaced(vs, s)) + Times(r - s, Bilinear(q, d, d))
  {
    hide SlopeAt, Bilinear, Times, Scaled, Plus, IsSymmetric, Gradient, Displaced, Heading;
    SlopeMoves(q, Gradient(vs), d, Displaced(vs, s), r - s);
  }

  lemma NotAboveZero(a: real, b: real, f1: real, f2: real)
    requires f2 > 0.0 && a <= b && Times(b, f2) == -f1
    ensures f1 + Times(a, f2) <= 0.0
  {
    TimesMonotone(a, b, f2);
  }

  lemma TimesMonotone(a: real, b: real, x: real)
    requires a <= b && x > 0.0
    ensures Times(a, x) <= Times(b, x)
  {
    assert (b - a) * x == b * x - a * x;
    if a < b {
      TimesPositive(b - a, x);
    }
  }

  lemma SignOfQuotient(dtm: real, f1: real, f2: real)
    requires f2 > 0.0 && Times(dtm, f2) == -f1
    ensures dtm < 0.0 <==> f1 > 0.0
  {
    if dtm > 0.0 {
      TimesPositive(dtm, f2);
    } else if dtm < 0.0 {
      TimesPositive(-dtm, f2);
      Negated(dtm, f2);
    } else {
      TimesZero(f2);
    }
  }

  ghost predicate NoneBefore(rem: multiset<Break>, r: real) {
    forall b :: b in rem ==> r <= b.at
  }

  ghost predicate NoneUntil(rem: multiset<Break>, r: real) {
    forall b :: b in rem ==> r < b.at
  }

  /** Up to the next breakpoint the path leads straight on along d. */
  ghost predicate Straight(vs: seq<Var>, rem: multiset<Break>, s: real, d: Vector) {
    && |vs| > 0 && |d| == |vs| - 1
    && (forall r {:trigger NoneBefore(rem, r)} :: s <= r && NoneBefore(rem, r) ==>
      Displaced(vs, r) == Plus(Displaced(vs, s), Scaled(r - s, d)))
    && (forall r {:trigger NoneUntil(rem, r)} :: s <= r && NoneUntil(rem, r) ==> Heading(vs, r) == d)
  }

  /** f1 and f2 are the slope of the model at s along d and how it grows. */
  ghost predicate Slopes(vs: seq<Var>, q: Model, s: real, d: Vector, f1: real, f2: real) {
    && |vs| > 0 && |d| == |vs| - 1 && Proper(q, |vs| - 1)
    && f1 == SlopeAt(q, Gradient(vs), d, Displaced(vs, s)) && f2 == Bilinear(q, d, d)
  }

  lemma RiseBefore(vs: seq<Var>, q: Model, rem: multiset<Break>, s: real, d: Vector, f1: real, f2: real, r: real)
    requires Straight(vs, rem, s, d) && Slopes(vs, q, s, d, f1, f2) && s <= r && NoneUntil(rem, r)
    ensures Rise(vs, q, r) == f1 + Times(r - s, f2)
  {
    hide SlopeAt, Bilinear, Times, Scaled, Plus, IsSymmetric, Gradient, Displaced, Heading, NoneUntil, NoneBefore;
    assert NoneBefore(rem, r) by {
      WeakerBound(rem, r);
    }
    RiseOnSegment(vs, q, d, s, r);
  }

  lemma WeakerBound(rem: multiset<Break>, r: real)
    requires NoneUntil(rem, r)
    ensures NoneBefore(rem, r)
  {
  }

  lemma ZeroDirection(q: Model, g: Vector, d: Vector, z: Vector)
    requires Proper(q, |d|) && |g| == |d| == |z| && d == Zeros(|d|)
    ensures SlopeAt(q, g, d, z) == 0.0 && Bilinear(q, d, d) == 0.0
  {
    hide Form, Trans;
    TransZero(q, |d|);
    DotZeros(g, d, |d|);
    DotZeros(z, d, |d|);
    DotSymmetric(z, d);
    DotZeros(d, d, |d|);
    TimesZero(q.theta);
    KeepsSize(q.middle, Trans(q, z));
    FormOfZero(q.middle, Trans(q, z));
    KeepsSize(q.middle, Trans(q, d));
    FormOfZero(q.middle, Trans(q, d));
  }

  /** The curvature along d is positive, or nothing moves. */
  lemma CurvatureSign(vs: seq<Var>, q: Model, s: real, d: Vector, f1: real, f2: real)
    requires Slopes(vs, q, s, d, f1, f2) && Definite(q, |vs| - 1)
    ensures d != Zeros(|d|) ==> f2 > 0.0
    ensures d == Zeros(|d|) ==> f1 == f2 == 0.0
  {
    hide SlopeAt, Bilinear, IsSymmetric, Gradient, Displaced;
    if d == Zeros(|d|) {
      ZeroDirection(q, Gradient(vs), d, Displaced(vs, s));
    }
  }

  /** dtm leads to the stationary point, or nothing moves. */
  ghost predicate LeadsTo(d: Vector, f1: real, f2: real, dtm: real) {
    d != Zeros(|d|) && f2 != 0.0 ==> Times(dtm, f2) == -f1
  }

  /** If the stationary point is not before the next breakpoint, the model does not rise on the way there. */
  lemma FallsOn(vs: seq<Var>, q: Model, rem: multiset<Break>, s: real, d: Vector, f1: real, f2: real, dtm: real,
                to: real)
    requires Straight(vs, rem, s, d) && Slopes(vs, q, s, d, f1, f2) && Definite(q, |vs| - 1)
    requires Falling(vs, q, s) && NoneBefore(rem, to) && s <= to <= s + dtm && LeadsTo(d, f1, f2, dtm)
    ensures Falling(vs, q, to)
  {
    hide Rise, Straight, Slopes, Definite, LeadsTo, IsSymmetric, NoneUntil;
    assert |vs| > 0 && Proper(q, |vs| - 1) by {
      SlopesProper(vs, q, s, d, f1, f2);
    }
    forall r | 0.0 <= r < to ensures Rise(vs, q, r) <= 0.0 {
      if r >= s {
        BoundBefore(rem, to, r);
        DoesNotRise(vs, q, rem, s, d, f1, f2, dtm, r);
      }
    }
  }

  lemma BoundBefore(rem: multiset<Break>, to: real, r: real)
    requires NoneBefore(rem, to) && r < to
    ensures NoneUntil(rem, r)
  {
  }

  lemma SlopesProper(vs: seq<Var>, q: Model, s: real, d: Vector, f1: real, f2: real)
    requires Slopes(vs, q, s, d, f1, f2)
    ensures |vs| > 0 && Proper(q, |vs| - 1)
  {
  }

  lemma DoesNotRise(vs: seq<Var>, q: Model, rem: multiset<Break>, s: real, d: Vector, f1: real, f2: real, dtm: real,
                    r: real)
    requires Straight(vs, rem, s, d) && Slopes(vs, q, s, d, f1, f2) && Definite(q, |vs| - 1)
    requires NoneUntil(rem, r) && s <= r <= s + dtm && LeadsTo(d, f1, f2, dtm)
    ensures Rise(vs, q, r) <= 0.0
  {
    hide Rise, Straight, Slopes, Definite, Times, Zeros, NoneUntil;
    CurvatureSign(vs, q, s, d, f1, f2);
    RiseBefore(vs, q, rem, s, d, f1, f2, r);
    if d != Zeros(|d|) {
      NotAboveZero(r - s, dtm, f1, f2);
    } else {
      TimesZero(r - s);
    }
  }

  /** Where the search stops within a segment, the path first rises, unless it stops at a tie. */
  lemma StopsAtMinimum(vs: seq<Var>, q: Model, rem: multiset<Break>, s: real, d: Vector, f1: real, f2: real, dtm: real)
    requires Straight(vs, rem, s, d) && Slopes(vs, q, s, d, f1, f2) && Definite(q, |vs| - 1)
    requires Falling(vs, q, s) && NoneUntil(rem, s + dtm) && LeadsTo(d, f1, f2, dtm)
    requires f1 > 0.0 ==> NoneUntil(rem, s)
    requires d == Zeros(|d|) ==> NoneUntil(rem, s)
    ensures Falling(vs, q, s + Max(dtm, 0.0)) && Rise(vs, q, s + Max(dtm, 0.0)) >= 0.0
  {
    hide Rise, Straight, Slopes, Definite, Times, Zeros, Falling, NoneUntil;
    CurvatureSign(vs, q, s, d, f1, f2);
    if dtm >= 0.0 {
      WeakerBound(rem, s + dtm);
      FallsOn(vs, q, rem, s, d, f1, f2, dtm, s + dtm);
      RiseBefore(vs, q, rem, s, d, f1, f2, s + dtm);
      TimesZero(dtm);
    } else {
      if d != Zeros(|d|) {
        SignOfQuotient(dtm, f1, f2);
      }
      RiseBefore(vs, q, rem, s, d, f1, f2, s);
      TimesZero(f2);
    }
  }

  /** The first breakpoint after s of variables 1..k, or to. */
  ghost function NextAfter(vs: seq<Var>, k: nat, s: real, to: real): (r: real)
    requires k < |vs| && s < to
    ensures s < r <= to
    ensures forall i :: 1 <= i <= k && vs[i].Meets() && vs[i].MeetsAt() > s ==> r <= vs[i].MeetsAt()
  {
    if k == 0 then to else
      var r := NextAfter(vs, k - 1, s, to);
      if vs[k].Meets() && s < vs[k].MeetsAt() < r then vs[k].MeetsAt() else r
  }

  /** The variable does not meet its bound after s up to r. */
  ghost predicate KeepsOn(v: Var, s: real, r: real) {
    v.Sane() && 0.0 <= s <= r && (v.Meets() ==> v.MeetsAt() <= s || r < v.MeetsAt())
  }

  lemma HeadsOn(v: Var, s: real, r: real)
    requires KeepsOn(v, s, r)
    ensures HeadingOf(v, r) == HeadingOf(v, s) && v.Path(r) == v.Path(s) + Times(r - s, HeadingOf(v, s))
  {
    hide Moved, Times, Var.Path, Var.MeetsAt;
    PathIsPiecewiseLinear(v, s);
    PathIsPiecewiseLinear(v, r);
    MovedBetween(v.x, s, r, v.Direction());
    TimesZero(r - s);
  }

  lemma StraightBetween(vs: seq<Var>, s: real, r: real)
    requires |vs| > 0 && forall i :: 1 <= i < |vs| ==> KeepsOn(vs[i], s, r)
    ensures Heading(vs, r) == Heading(vs, s)
    ensures Displaced(vs, r) == Plus(Displaced(vs, s), Scaled(r - s, Heading(vs, s)))
  {
    hide KeepsOn, HeadingOf, Var.Path, Times;
    var z := Plus(Displaced(vs, s), Scaled(r - s, Heading(vs, s)));
    forall k | 0 <= k < |vs| - 1 ensures Heading(vs, r)[k] == Heading(vs, s)[k] && Displaced(vs, r)[k] == z[k] {
      HeadsOn(vs[k + 1], s, r);
      ScaledIs(r - s, Heading(vs, s), k);
    }
  }

  /** If the path does not fall at s and a variable still moves, the model rises before that variable stops. */
  lemma RisesAfter(vs: seq<Var>, q: Model, s: real, i: int)
    requires |vs| > 0 && Proper(q, |vs| - 1) && Definite(q, |vs| - 1) && forall k :: 1 <= k < |vs| ==> vs[k].Sane()
    requires 0.0 <= s && Rise(vs, q, s) >= 0.0 && 1 <= i < |vs| && vs[i].Meets() && s < vs[i].MeetsAt()
    ensures !Falling(vs, q, vs[i].MeetsAt())
  {
    hide SlopeAt, Bilinear, IsSymmetric, Var.MeetsAt, Times;
    var to := vs[i].MeetsAt();
    var next := NextAfter(vs, |vs| - 1, s, to);
    var r, h := (s + next) / 2.0, Heading(vs, s);
    assert s < r < next;
    StraightBetween(vs, s, r);
    RiseOnSegment(vs, q, h, s, r);
    assert h[i - 1] != Zeros(|vs| - 1)[i - 1];
    TimesPositive(r - s, Bilinear(q, h, h));
    assert Rise(vs, q, r) > 0.0;
  }

  /** Where the path first rises behind the first m breakpoints, no breakpoint is such that the search ends short. */
  lemma NeverShort(vs: seq<Var>, q: Model, s: real, m: nat)
    requires |vs| > 0 && Proper(q, |vs| - 1) && Definite(q, |vs| - 1) && forall k :: 1 <= k < |vs| ==> vs[k].Sane()
    requires 0.0 <= s && Falling(vs, q, s) && Rise(vs, q, s) >= 0.0 && NoneShort(vs, q, m)
    requires forall k :: m <= k < |Passing(vs)| ==> s <= Passing(vs)[k].at
    ensures EndsAt(vs, q, s)
  {
    hide Rise, PartialRise, Falling, Definite, IsSymmetric, Var.Meets, Var.MeetsAt, Var.Sane, Passing, Found;
    forall k: nat ensures !ShortAt(vs, q, k) {
      if ShortAt(vs, q, k) {
        var b := Passing(vs)[k];
        PassingIsBreak(vs, k);
        if s < b.at {
          RisesAfter(vs, q, s, b.variable);
        }
      }
    }
  }

  lemma PassingIsBreak(vs: seq<Var>, k: nat)
    requires |vs| > 0 && k < |Passing(vs)|
    ensures IsBreak(vs, |vs| - 1, Passing(vs)[k])
  {
    hide Order, Found, IsBreak;
    OrderAscends(Found(vs, |vs| - 1));
    BreakIn(vs, Passing(vs), k);
  }

  /** The search ends at a tie, since the model rises from there as long as only the variables before it are stopped. */
  lemma StopsAtTie(vs: seq<Var>, q: Model, m: nat)
    requires |vs| > 0 && Proper(q, |vs| - 1) && Definite(q, |vs| - 1) && forall k :: 1 <= k < |vs| ==> vs[k].Sane()
    requires NoneShort(vs, q, m) && Ties(vs, m) && PartialRise(vs, q, m) > 0.0
    requires Passing(vs)[m].at >= 0.0 && Falling(vs, q, Passing(vs)[m].at)
    ensures EndsAt(vs, q, Passing(vs)[m].at)
  {
    hide Rise, PartialRise, Falling, Definite, IsSymmetric, Order, Var.Meets, Var.MeetsAt, Var.Sane, Found;
    if Rise(vs, q, Passing(vs)[m].at) < 0.0 {
      assert ShortAt(vs, q, m);
      assert FirstShort(vs, q, m);
    } else {
      OrderAscends(Found(vs, |vs| - 1));
      NeverShort(vs, q, Passing(vs)[m].at, m);
    }
  }
}
