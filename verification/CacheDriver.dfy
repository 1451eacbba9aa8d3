/** The iterations of mainlb, as far as they decide which pairs and free variables wn1 is for. */
module CacheDriver {
  import opened Vectors
  import opened Blas
  import opened CorrectionMemory
  import opened FreeVariables
  import opened RestrictedProducts

  /**
   * What a pass of the loop does to wn1. LeftOut is a call of formk that is due but not made because
   * no variable is free; wrong counts the oldest pairs for which the matrix is not right after it.
   */
  datatype Event = Restart | Formed(dropped: bool) | LeftOut(wrong: nat) | Idle

  /** The number of oldest pairs for which the matrix is not right. */
  ghost function Missing(h: seq<Event>): nat {
    if h == [] then 0 else
      var before := Missing(h[..|h| - 1]);
      match h[|h| - 1]
      case Restart => 0
      case Formed(dropped) => if dropped && before > 0 then before - 1 else before
      case LeftOut(wrong) => wrong
      case Idle => before
  }

  lemma MissingStep(h: seq<Event>, e: Event)
    ensures Missing(h + [e]) ==
            match e
            case Restart => 0
            case Formed(dropped) => if dropped && Missing(h) > 0 then Missing(h) - 1 else Missing(h)
            case LeftOut(wrong) => wrong
            case Idle => Missing(h)
  {
    assert (h + [e])[..|h|] == h;
  }

  /** The calls of formk that have dropped a pair. */
  ghost function Drops(h: seq<Event>): nat {
    if h == [] then 0 else Drops(h[..|h| - 1]) + if h[|h| - 1] == Formed(true) then 1 else 0
  }

  ghost predicate OnlyForms(h: seq<Event>) {
    forall i :: 0 <= i < |h| ==> h[i].Formed? || h[i].Idle?
  }

  /** After a call is left out, the matrix is right again exactly when the wrong pairs have been dropped. */
  lemma {:induction false} RightAgain(h: seq<Event>, wrong: nat, after: seq<Event>)
    requires OnlyForms(after)
    ensures Missing(h + [LeftOut(wrong)] + after) == if Drops(after) >= wrong then 0 else wrong - Drops(after)
  {
    var g := h + [LeftOut(wrong)];
    if after == [] {
      MissingStep(h, LeftOut(wrong));
      assert g + after == g;
    } else {
      var k := |after| - 1;
      RightAgain(h, wrong, after[..k]);
      MissingStep(g + after[..k], after[k]);
      assert g + after == g + after[..k] + [after[k]];
    }
  }

  /** As long as no call has been left out with harm, the matrix is right. */
  lemma {:induction false} RightWithoutHarm(h: seq<Event>)
    requires forall i :: 0 <= i < |h| && h[i].LeftOut? ==> h[i].wrong == 0
    ensures Missing(h) == 0
  {
    if h != [] {
      RightWithoutHarm(h[..|h| - 1]);
    }
  }

  lemma {:induction false} StaysRight(h: seq<Event>, after: seq<Event>)
    requires Missing(h) == 0 && forall i :: 0 <= i < |after| ==> !after[i].LeftOut?
    ensures Missing(h + after) == 0
  {
    if after == [] {
      assert h + after == h;
    } else {
      var k := |after| - 1;
      StaysRight(h, after[..k]);
      MissingStep(h + after[..k], after[k]);
      assert h + after == h + after[..k] + [after[k]];
    }
  }

  // ----- from the lists of one component to those of another -----

  lemma ListedFrom(a: array<int>, lo: nat, hi: nat, n: nat, s: set<int>)
    requires lo <= hi <= a.Length && Lists(a[lo..hi], s) && s <= All(n)
    ensures ListedAt(a, lo, hi, n, s)
  {
    var l := a[lo..hi];
    forall i | 0 <= i < |l| ensures 1 <= l[i] <= n {
      assert l[i] in Elements(l);
    }
  }

  lemma TracksLists(free: FreeSet, f: set<int>)
    requires free.Tracks(f)
    ensures f <= All(free.n) && 0 <= free.nfree <= free.n && (free.nfree == 0 <==> f == {})
    ensures ListedAt(free.indx, 1, free.nfree + 1, free.n, f)
    ensures ListedAt(free.indx, free.nfree + 1, free.n + 1, free.n, All(free.n) - f)
  {
    var n, k, l := free.n, free.nfree, free.indx[..];
    SubsetOfAll(l, k, n, f);
    SplitsIntoLists(l, k, n, f);
    hide Lists, All, Splits;
    SameSlice(free.indx, 1, k + 1);
    SameSlice(free.indx, k + 1, n + 1);
    ListedFrom(free.indx, 1, k + 1, n, f);
    ListedFrom(free.indx, k + 1, n + 1, n, All(n) - f);
    CountIsSize(l[1..k + 1], f);
  }

  lemma SplitsIntoLists(l: seq<int>, k: nat, n: nat, f: set<int>)
    requires Splits(l, k, n, f)
    ensures k <= n && |l| == n + 1 && Lists(l[1..k + 1], f) && Lists(l[k + 1..n + 1], All(n) - f)
  {
    hide Distinct;
    HalvesAreDistinct(l[1..], k);
    assert l[1..][..k] == l[1..k + 1] && l[1..][k..] == l[k + 1..] == l[k + 1..n + 1];
  }

  lemma SameSlice(a: array<int>, lo: nat, hi: nat)
    requires lo <= hi <= a.Length
    ensures a[..][lo..hi] == a[lo..hi]
  {
  }

  lemma SubsetOfAll(l: seq<int>, nfree: int, n: nat, f: set<int>)
    requires Splits(l, nfree, n, f)
    ensures f <= All(n)
  {
    forall k | k in f ensures k in All(n) {
      var part := l[1..nfree + 1];
      var i :| 0 <= i < |part| && part[i] == k;
      assert l[1..][i] == k;
    }
  }

  lemma HalvesAreDistinct(l: seq<int>, k: nat)
    requires Distinct(l) && k <= |l|
    ensures Distinct(l[..k]) && Distinct(l[k..])
  {
  }

  lemma ChangedLists(free: FreeSet, enter: set<int>, leave: set<int>)
    requires free.Changed(enter, leave) && enter <= All(free.n) && leave <= All(free.n)
    ensures 0 <= free.nenter && 0 <= free.ileave
    ensures ListedAt(free.indx2, 1, free.nenter + 1, free.n, enter)
    ensures ListedAt(free.indx2, free.ileave, free.n + 1, free.n, leave)
  {
    ListedFrom(free.indx2, 1, free.nenter + 1, free.n, enter);
    assert free.indx2[free.ileave..free.n + 1] == free.indx2[free.ileave..];
    ListedFrom(free.indx2, free.ileave, free.n + 1, free.n, leave);
  }

  lemma AllAreFree(w: seq<int>, n: nat)
    requires |w| == n + 1 && forall i :: 1 <= i <= n ==> w[i] <= 0
    ensures FreeIn(w, n) == All(n)
  {
    forall k ensures k in FreeIn(w, n) <==> k in All(n) {
    }
  }

  /** The pairs in the ring after an update, or without one. */
  lemma KeptFollows(pairs0: seq<Pair>, kept0: seq<Pair>, pairs: seq<Pair>, kept: seq<Pair>, added: bool, last: Pair,
                    m: nat)
    requires m >= 1 && IsSuffix(kept0, pairs0) && IsSuffix(kept, pairs)
    requires |kept0| == (if |pairs0| < m then |pairs0| else m) && |kept| == (if |pairs| < m then |pairs| else m)
    requires pairs == pairs0 + if added then [last] else []
    ensures Follows(kept0, kept, added, added && |pairs| > m)
  {
    if !added {
      assert kept == kept0;
    } else if |pairs| > m {
      assert kept[..m - 1] == kept0[1..];
    } else {
      assert kept[..|kept| - 1] == kept0;
    }
  }

  lemma KeptIsSized(memory: Memory)
    requires memory.Valid()
    ensures Sized(memory.kept, memory.n) && |memory.kept| <= memory.m
  {
  }

  // ----- the rows for which the matrix is right -----

  lemma RightFurther(sub: Subspace, ps: seq<Pair>, f: set<int>, k: nat, j: nat)
    requires sub.Shapes() && |ps| <= sub.m && Sized(ps, sub.n) && sub.RightBeyond(ps, f, k) && k <= j
    ensures sub.RightBeyond(ps, f, j)
  {
    hide Entry;
    forall r, c | InBlocks(|ps|, sub.m, r, c) && Beyond(j, sub.m, r, c) ensures sub.Right(ps, f, r, c) {
      assert Beyond(k, sub.m, r, c);
    }
  }

  lemma RightBehindAll(sub: Subspace, ps: seq<Pair>, f: set<int>)
    requires sub.Shapes() && |ps| <= sub.m && Sized(ps, sub.n)
    ensures sub.RightBeyond(ps, f, |ps|)
  {
  }

  /** The least number of oldest pairs that have to be disregarded. */
  lemma LeastWrong(sub: Subspace, ps: seq<Pair>, f: set<int>) returns (wrong: nat)
    requires sub.Shapes() && |ps| <= sub.m && Sized(ps, sub.n)
    ensures wrong <= |ps|
    ensures forall k: nat {:trigger sub.RightBeyond(ps, f, k)} :: sub.RightBeyond(ps, f, k) <==> k >= wrong
  {
    RightBehindAll(sub, ps, f);
    wrong := |ps|;
    while wrong > 0 && sub.RightBeyond(ps, f, wrong - 1)
      invariant wrong <= |ps| && sub.RightBeyond(ps, f, wrong)
    {
      wrong := wrong - 1;
    }
    forall k: nat ensures sub.RightBeyond(ps, f, k) <==> k >= wrong {
      if k >= wrong {
        RightFurther(sub, ps, f, wrong, k);
      } else if sub.RightBeyond(ps, f, k) {
        RightFurther(sub, ps, f, k, wrong - 1);
      }
    }
  }

  // ----- the driver -----

  /** What the other routines do in one pass. */
  datatype Outcome =
    | SearchFails
    | StepFails
    | Converges
    | Moves(g: Vector, r: Vector, d: Vector, stp: real, refused: bool)

  /** iwhere is what the path search leaves. */
  datatype Pass = Pass(iwhere: seq<int>, outcome: Outcome)

  /** What the decisions of the driver depend on. */
  datatype State = State(iter: nat, pairs: seq<Pair>, updatd: bool, free: set<int>, ended: bool)

  /** A pass that the run can take: the line search goes down, and only bounds can fix a variable. */
  ghost predicate Possible(p: Pass, n: nat, cnstnd: bool) {
    && |p.iwhere| == n + 1 && (!cnstnd ==> forall i :: 1 <= i <= n ==> p.iwhere[i] <= 0)
    && (p.outcome.Moves? ==>
      && |p.outcome.g| == |p.outcome.r| == |p.outcome.d| == n
      && Dot(p.outcome.r, p.outcome.d) < 0.0 && p.outcome.stp > 0.0)
  }

  /** The path search is made and fails; without bounds it is left out as soon as there are pairs. */
  ghost predicate FailsInSearch(t: State, p: Pass, cnstnd: bool) {
    p.outcome.SearchFails? && (cnstnd || t.pairs == [])
  }

  /** The state after a pass. */
  ghost function After(t: State, p: Pass, n: nat, cnstnd: bool, epsmch: real): State
    requires Possible(p, n, cnstnd)
  {
    var now := FreeIn(p.iwhere, n);
    if FailsInSearch(t, p, cnstnd) then State(t.iter, [], false, t.free, false)
    else if p.outcome.Moves? then Moved(t, p.outcome, now, epsmch)
    else if p.outcome.Converges? || t.pairs == [] then State(t.iter + 1, t.pairs, t.updatd, now, true)
    else State(t.iter, [], false, now, false)
  }

  /** The pair of the step is added if its curvature is large enough. */
  ghost function Moved(t: State, move: Outcome, now: set<int>, epsmch: real): State
    requires move.Moves? && |move.g| == |move.r| == |move.d|
  {
    var s, y := Scaled(move.stp, move.d), Minus(move.g, move.r);
    if move.refused then State(t.iter + 1, [], false, now, false)
    else if Dot(s, y) > epsmch * -Dot(move.r, s) then State(t.iter + 1, t.pairs + [Pair(s, y)], true, now, false)
    else State(t.iter + 1, t.pairs, false, now, false)
  }

  lemma FreeIsReplaced(t: State, now: set<int>, p: Pass, n: nat, cnstnd: bool, epsmch: real)
    requires Possible(p, n, cnstnd) && !FailsInSearch(t, p, cnstnd)
    ensures After(t.(free := now), p, n, cnstnd, epsmch) == After(t, p, n, cnstnd, epsmch)
  {
    hide Dot, Scaled, Minus;
  }

  lemma Unmoved(t: State, p: Pass, n: nat, cnstnd: bool, epsmch: real)
    requires Possible(p, n, cnstnd) && FailsInSearch(t, p, cnstnd)
    ensures After(t, p, n, cnstnd, epsmch) == State(t.iter, [], false, t.free, false)
  {
  }

  /** What a pass does to the memory, and whether it is the last one. */
  ghost predicate EndsAsItShould(outcome: Outcome, pairs: seq<Pair>, pairs': seq<Pair>, ended: bool) {
    match outcome
    case Converges => ended && pairs' == pairs
    case StepFails => (ended <==> pairs == []) && pairs' == []
    case SearchFails => !ended && pairs' == []
    case Moves(_, _, _, _, refused) => !ended && if refused then pairs' == [] else pairs' == pairs || pairs < pairs'
  }

  /** Only convergence ends the run, or a failure of the step with an empty memory; other failures empty the memory. */
  lemma PassEnds(t: State, p: Pass, n: nat, cnstnd: bool, epsmch: real)
    requires Possible(p, n, cnstnd)
    ensures var u := After(t, p, n, cnstnd, epsmch); EndsAsItShould(p.outcome, t.pairs, u.pairs, u.ended)
  {
    hide Dot, Scaled, Minus;
  }

  /** A second failure of the step in a row ends the run. */
  lemma SecondFailureEnds(t: State, p: Pass, p': Pass, n: nat, cnstnd: bool, epsmch: real)
    requires Possible(p, n, cnstnd) && Possible(p', n, cnstnd) && p.outcome.StepFails? && p'.outcome.StepFails?
    ensures var u := After(t, p, n, cnstnd, epsmch); u.ended || After(u, p', n, cnstnd, epsmch).ended
  {
    PassEnds(t, p, n, cnstnd, epsmch);
    PassEnds(After(t, p, n, cnstnd, epsmch), p', n, cnstnd, epsmch);
  }

  /** The memory is refreshed in this pass. */
  ghost predicate Refreshes(t: State, p: Pass, cnstnd: bool) {
    || FailsInSearch(t, p, cnstnd)
    || (p.outcome.Moves? && p.outcome.refused)
    || ((p.outcome.SearchFails? || p.outcome.StepFails?) && t.pairs != [])
  }

  /** What happens to wn1 when the variables in now are free. */
  ghost predicate Suits(e: Event, t: State, now: set<int>, m: nat) {
    if t.pairs == [] || (!t.updatd && now == t.free) then e == Idle
    else if now == {} then e.LeftOut? else e == Formed(t.updatd && |t.pairs| > m)
  }

  /** The events of a pass. */
  ghost predicate SuitsPass(es: seq<Event>, t: State, p: Pass, n: nat, m: nat, cnstnd: bool)
    requires Possible(p, n, cnstnd)
  {
    if FailsInSearch(t, p, cnstnd) then es == [Restart]
    else |es| > 0 && Suits(es[0], t, FreeIn(p.iwhere, n), m) &&
         es[1..] == if Refreshes(t, p, cnstnd) then [Restart] else []
  }

  ghost predicate AllPossible(passes: seq<Pass>, n: nat, cnstnd: bool) {
    forall i :: 0 <= i < |passes| ==> Possible(passes[i], n, cnstnd)
  }

  /** Some variable is free in every pass. */
  ghost predicate AlwaysFree(passes: seq<Pass>, n: nat, cnstnd: bool)
    requires AllPossible(passes, n, cnstnd)
  {
    forall i :: 0 <= i < |passes| ==> FreeIn(passes[i].iwhere, n) != {}
  }

  /** The state after some passes; those after the end are not made. */
  ghost function AfterAll(t: State, passes: seq<Pass>, n: nat, cnstnd: bool, epsmch: real): State
    requires AllPossible(passes, n, cnstnd)
  {
    if passes == [] then t else
      var k := |passes| - 1;
      var u := AfterAll(t, passes[..k], n, cnstnd, epsmch);
      if u.ended then u else After(u, passes[k], n, cnstnd, epsmch)
  }

  /** The events of some passes. */
  ghost predicate Records(h: seq<Event>, t: State, passes: seq<Pass>, n: nat, m: nat, cnstnd: bool, epsmch: real)
    requires AllPossible(passes, n, cnstnd)
    decreases |passes|
  {
    if passes == [] then h == [] else
      var k := |passes| - 1;
      var u := AfterAll(t, passes[..k], n, cnstnd, epsmch);
      if u.ended then Records(h, t, passes[..k], n, m, cnstnd, epsmch)
      else exists i | 0 <= i <= |h| ::
        Records(h[..i], t, passes[..k], n, m, cnstnd, epsmch) && SuitsPass(h[i..], u, passes[k], n, m, cnstnd)
  }

  /** If some variable is free in every pass, no call is left out. */
  lemma {:induction false} NothingLeftOut(h: seq<Event>, t: State, passes: seq<Pass>, n: nat, m: nat, cnstnd: bool,
                                          epsmch: real)
    requires AllPossible(passes, n, cnstnd) && Records(h, t, passes, n, m, cnstnd, epsmch)
    requires AlwaysFree(passes, n, cnstnd)
    ensures forall j :: 0 <= j < |h| ==> !h[j].LeftOut?
    decreases |passes|
  {
    hide AfterAll, SuitsPass;
    if passes != [] {
      var k := |passes| - 1;
      var u := AfterAll(t, passes[..k], n, cnstnd, epsmch);
      if u.ended {
        NothingLeftOut(h, t, passes[..k], n, m, cnstnd, epsmch);
      } else {
        var i :| 0 <= i <= |h| && Records(h[..i], t, passes[..k], n, m, cnstnd, epsmch) &&
                 SuitsPass(h[i..], u, passes[k], n, m, cnstnd);
        NothingLeftOut(h[..i], t, passes[..k], n, m, cnstnd, epsmch);
        NoneLeftOutInPass(h[i..], u, passes[k], n, m, cnstnd);
        forall j | 0 <= j < |h| ensures !h[j].LeftOut? {
          assert h[j] == if j < i then h[..i][j] else h[i..][j - i];
        }
      }
    }
  }

  lemma NoneLeftOutInPass(es: seq<Event>, t: State, p: Pass, n: nat, m: nat, cnstnd: bool)
    requires Possible(p, n, cnstnd) && SuitsPass(es, t, p, n, m, cnstnd) && FreeIn(p.iwhere, n) != {}
    ensures forall j :: 0 <= j < |es| ==> !es[j].LeftOut?
  {
    if !FailsInSearch(t, p, cnstnd) {
      assert es == [es[0]] + es[1..];
    }
  }

  lemma NoPasses(t: State, n: nat, m: nat, cnstnd: bool, epsmch: real)
    ensures AfterAll(t, [], n, cnstnd, epsmch) == t && Records([], t, [], n, m, cnstnd, epsmch)
  {
  }

  lemma RecordsOneMore(h: seq<Event>, es: seq<Event>, t: State, passes: seq<Pass>, p: Pass, n: nat, m: nat,
                       cnstnd: bool, epsmch: real)
    requires AllPossible(passes, n, cnstnd) && Possible(p, n, cnstnd) && Records(h, t, passes, n, m, cnstnd, epsmch)
    requires var u := AfterAll(t, passes, n, cnstnd, epsmch);
      if u.ended then es == [] else SuitsPass(es, u, p, n, m, cnstnd)
    ensures AllPossible(passes + [p], n, cnstnd)
    ensures Records(h + es, t, passes + [p], n, m, cnstnd, epsmch)
    ensures var u := AfterAll(t, passes, n, cnstnd, epsmch);
      AfterAll(t, passes + [p], n, cnstnd, epsmch) == if u.ended then u else After(u, p, n, cnstnd, epsmch)
  {
    hide After, SuitsPass;
    assert (passes + [p])[..|passes|] == passes;
    assert (h + es)[..|h|] == h && (h + es)[|h|..] == es;
    assert h + [] == h;
  }

  method FromVector(v: Vector) returns (a: array<real>)
    ensures fresh(a) && a.Length == |v| + 1 && Vec(a) == v
  {
    a := new real[|v| + 1](i requires 0 <= i <= |v| => if i == 0 then 0.0 else v[i - 1]);
    assert Vec(a) == v;
  }

  class Driver {
    const memory: Memory
    const free: FreeSet
    const sub: Subspace
    const cnstnd: bool
    var iter: nat
    /** The pairs and the free variables that wn1 was last brought up to date for, or should have been. */
    ghost var before: seq<Pair>
    ghost var f: set<int>
    ghost var history: seq<Event>

    ghost predicate Shapes() {
      && sub.Shapes() && free.Shapes() && memory.n == free.n == sub.n && memory.m == sub.m
      && sub.ws == memory.ws && sub.wy == memory.wy && sub.ind == free.indx && sub.indx2 == free.indx2
      && sub.wn1 != memory.ss && sub.wn1 != memory.sy
    }

    /** The components agree. */
    ghost predicate Linked()
      reads this, memory, memory.ws, memory.wy, memory.ss, memory.sy, free, free.indx, free.indx2
    {
      && Shapes() && memory.Valid() && f <= All(sub.n)
      && (memory.pairs != [] ==> iter > 0)
      && (iter > 0 ==> free.Tracks(f))
      && (!cnstnd && iter > 0 ==> f == All(sub.n) && free.Changed({}, {}))
    }

    /** How far the matrix is right is what the history says. */
    ghost predicate Law()
      reads this, sub.wn1
    {
      && sub.Shapes() && |before| <= sub.m && Sized(before, sub.n)
      && forall k: nat {:trigger sub.RightBeyond(before, f, k)} ::
        sub.RightBeyond(before, f, k) <==> k >= Missing(history)
    }

    /** At the beginning of the loop. */
    ghost predicate Top()
      reads this, memory, memory.ws, memory.wy, memory.ss, memory.sy, free, free.indx, free.indx2, sub.wn1
    {
      && Linked() && Law()
      && Follows(before, memory.kept, memory.updatd, memory.updatd && memory.iupdat > memory.m)
    }

    /** After the place of formk in the loop. */
    ghost predicate Middle()
      reads this, memory, memory.ws, memory.wy, memory.ss, memory.sy, free, free.indx, free.indx2, sub.wn1
    {
      && Linked() && Law() && before == memory.kept
      && free.Tracks(f) && (!cnstnd ==> f == All(sub.n) && free.Changed({}, {}))
    }

    constructor (n: nat, m: nat, cnstnd: bool)
      requires m >= 1
      ensures Top() && history == [] && memory.n == n && memory.m == m && this.cnstnd == cnstnd
      ensures fresh(memory) && fresh(free) && fresh(sub.wn1) && fresh(free.indx) && fresh(free.indx2)
      ensures fresh(memory.ws) && fresh(memory.wy) && fresh(memory.ss) && fresh(memory.sy)
    {
      hide Stored, Products, Entry, Curvature;
      var theMemory := new Memory(n, m);
      var theFree := new FreeSet(n);
      var theSub := new Subspace(n, m, theMemory.ws, theMemory.wy, theFree.indx, theFree.indx2);
      memory := theMemory;
      free := theFree;
      sub := theSub;
      this.cnstnd := cnstnd;
      iter := 0;
      before := [];
      f := {};
      history := [];
      new;
      AnyIsRight({});
    }

    lemma AnyIsRight(g: set<int>)
      requires sub.Shapes()
      ensures forall k: nat {:trigger sub.RightBeyond([], g, k)} :: sub.RightBeyond([], g, k)
    {
      RightBehindAll(sub, [], g);
      forall k: nat ensures sub.RightBeyond([], g, k) {
        RightFurther(sub, [], g, 0, k);
      }
    }

    /** The matrix is right exactly when nothing is missing. */
    lemma RightExactly()
      requires Law()
      ensures Caches(sub.wn1, before, sub.m, sub.n, f) <==> Missing(history) == 0
    {
      hide Entry;
      sub.CachesIsRight(before, f);
    }

    /** The memory is refreshed. */
    method Refresh()
      requires Linked()
      requires Law()
      modifies memory, this`before, this`history
      ensures Top() && history == old(history) + [Restart]
      ensures memory.pairs == [] && !memory.updatd
    {
      hide Missing, Stored, Products;
      memory.Reset();
      MissingStep(history, Restart);
      before := [];
      history := history + [Restart];
      AnyIsRight(f);
    }

    /** The free variables of this pass; without bounds they are found in the first pass only. */
    method FindFree(iwhere: array<int>)
      requires Linked() && iwhere.Length == sub.n + 1 && iwhere != free.indx && iwhere != free.indx2
      requires !cnstnd ==> forall i :: 1 <= i <= sub.n ==> iwhere[i] <= 0
      modifies free, free.indx, free.indx2
      ensures var now := FreeIn(iwhere[..], sub.n);
        && free.Tracks(now) && (!cnstnd ==> now == All(sub.n) && free.Changed({}, {}))
        && 0 <= free.nenter && 0 <= free.ileave
        && (memory.col > 0 ==> free.Changed(now - f, f - now) && (free.wrk <==> memory.updatd || now != f))
    {
      hide FreeIn, All, Lists, Splits, Stored, Products;
      if !cnstnd {
        AllAreFree(iwhere[..], sub.n);
      }
      if !cnstnd && memory.col > 0 {
        free.wrk := memory.updatd;
        NoDifference(f);
      } else {
        free.Freev(iwhere, iter, cnstnd, memory.updatd, f);
      }
    }

    lemma NoDifference(s: set<int>)
      ensures s - s == {}
    {
    }

    /** With the pairs ps, a call can be left out without harm to the entries of pairs behind the first k. */
    ghost predicate HarmlessFor(ps: seq<Pair>, added: bool, k: nat)
      requires sub.Shapes() && |ps| <= sub.m && Sized(before, sub.n) && Sized(ps, sub.n)
      requires Follows(before, ps, added, added && memory.iupdat > memory.m)
      reads this, memory, sub.wn1
    {
      SkipHarmless(sub.wn1, before, ps, sub.m, sub.n, f, added, added && memory.iupdat > memory.m, k)
    }

    /** A call can be left out in this pass without harm to those entries. */
    ghost predicate HarmlessNow(k: nat)
      requires Top()
      reads this, memory, memory.ws, memory.wy, memory.ss, memory.sy, free, free.indx, free.indx2, sub.wn1
    {
      KeptIsSized(memory);
      HarmlessFor(memory.kept, memory.updatd, k)
    }

    /** formk, if it is due and some variable is free. */
    method CallFormk(ghost now: set<int>) returns (formed: bool)
      requires Shapes() && memory.Valid() && f <= All(sub.n) && Law()
      requires Follows(before, memory.kept, memory.updatd, memory.updatd && memory.iupdat > memory.m)
      requires free.Tracks(now) && 0 <= free.nenter && 0 <= free.ileave
      requires memory.col > 0 ==> free.Changed(now - f, f - now) && (free.wrk <==> memory.updatd || now != f)
      modifies sub.wn1
      ensures formed <==> now != {} && memory.kept != [] && (memory.updatd || now != f)
      ensures !formed ==> unchanged(sub.wn1)
      ensures Sized(memory.kept, sub.n) && |memory.kept| <= sub.m
      ensures var shift := if memory.updatd && memory.iupdat > memory.m then 1 else 0;
        formed ==> forall k: nat {:trigger sub.RightBeyond(memory.kept, now, k)} ::
          sub.RightBeyond(memory.kept, now, k) <==> k + shift >= Missing(history)
    {
      hide Missing, Stored, Products, All, Splits, Lists, Entry;
      KeptIsSized(memory);
      TracksLists(free, now);
      if memory.col > 0 {
        ChangedLists(free, now - f, f - now);
      }
      formed := sub.FormIfNeeded(memory.head, memory.col, free.nfree, free.nenter, free.ileave, free.wrk,
                                 memory.updatd, memory.iupdat, before, memory.kept, f, now);
    }

    /** wn1 is brought up to date if that is due and some variable is free. */
    method Form(iwhere: array<int>) returns (ghost e: Event)
      requires Top() && iwhere.Length == sub.n + 1 && iwhere != free.indx && iwhere != free.indx2
      requires !cnstnd ==> forall i :: 1 <= i <= sub.n ==> iwhere[i] <= 0
      modifies free, free.indx, free.indx2, sub.wn1, this`before, this`f, this`history
      ensures Middle() && f == FreeIn(iwhere[..], sub.n) && history == old(history) + [e]
      ensures e.Formed? <==> f != {} && memory.kept != [] && (memory.updatd || f != old(f))
      ensures e.Formed? ==> e.dropped == (memory.updatd && memory.iupdat > memory.m)
      ensures e.LeftOut? <==> f == {} && memory.kept != [] && (memory.updatd || f != old(f))
      ensures e.LeftOut? ==> e.wrong <= |memory.kept|
      ensures e.LeftOut? ==> forall k: nat {:trigger old(HarmlessNow(k))} :: k >= old(Missing(history)) ==>
        (k >= e.wrong <==> old(HarmlessNow(k)))
      ensures !e.Restart?
    {
      hide Stored, Products, All, Splits, Lists, SkipHarmless, Missing, FreeIn, HarmlessFor;
      ghost var now := FreeIn(iwhere[..], sub.n);
      KeptIsSized(memory);
      FindFree(iwhere);
      var formed := CallFormk(now);
      TracksLists(free, now);
      assert !formed ==> forall k: nat {:trigger old(HarmlessNow(k))} ::
        HarmlessFor(memory.kept, memory.updatd, k) == old(HarmlessNow(k));
      e := Note(now, formed);
    }

    /** Notes what the pass has done. */
    ghost method Note(now: set<int>, formed: bool) returns (e: Event)
      requires sub.Shapes() && |before| <= sub.m && Sized(before, sub.n) && f <= All(sub.n)
      requires |memory.kept| <= sub.m && Sized(memory.kept, sub.n)
      requires Follows(before, memory.kept, memory.updatd, memory.updatd && memory.iupdat > memory.m)
      requires formed <==> now != {} && memory.kept != [] && (memory.updatd || now != f)
      requires !formed ==> Law()
      requires var shift := if memory.updatd && memory.iupdat > memory.m then 1 else 0;
        formed ==> forall k: nat {:trigger sub.RightBeyond(memory.kept, now, k)} ::
          sub.RightBeyond(memory.kept, now, k) <==> k + shift >= Missing(history)
      modifies `before, `f, `history
      ensures Law() && before == memory.kept && f == now && history == old(history) + [e] && !e.Restart?
      ensures e.Formed? <==> formed
      ensures e.Formed? ==> e.dropped == (memory.updatd && memory.iupdat > memory.m)
      ensures e.LeftOut? <==> now == {} && memory.kept != [] && (memory.updatd || now != old(f))
      ensures e.LeftOut? ==> e.wrong <= |memory.kept|
      ensures e.LeftOut? ==> forall k: nat {:trigger old(HarmlessFor(memory.kept, memory.updatd, k))} ::
        k >= old(Missing(history)) ==> (k >= e.wrong <==> old(HarmlessFor(memory.kept, memory.updatd, k)))
    {
      hide Missing, Entry, SkipHarmless, Follows, Sized, All;
      ghost var added, dropped := memory.updatd, memory.updatd && memory.iupdat > memory.m;
      if formed {
        e := Formed(dropped);
      } else if now == {} && memory.kept != [] && (added || now != f) {
        ghost var wrong := LeastWrong(sub, memory.kept, now);
        e := LeftOut(wrong);
        LeftOutExactly(memory.kept, added, wrong);
      } else {
        e := Idle;
        IdleKeeps(memory.kept, now, added, dropped);
      }
      MissingStep(history, e);
      before, f, history := memory.kept, now, history + [e];
    }

    /** Where the matrix was right it is right after a call is left out exactly if that is harmless there. */
    lemma LeftOutExactly(ps: seq<Pair>, added: bool, wrong: nat)
      requires Law() && f <= All(sub.n) && |ps| <= sub.m && Sized(ps, sub.n)
      requires Follows(before, ps, added, added && memory.iupdat > memory.m)
      requires forall k: nat {:trigger sub.RightBeyond(ps, {}, k)} :: sub.RightBeyond(ps, {}, k) <==> k >= wrong
      ensures forall k: nat {:trigger HarmlessFor(ps, added, k)} :: k >= Missing(history) ==>
        (k >= wrong <==> HarmlessFor(ps, added, k))
    {
      hide Entry, SkipHarmless, Missing;
      forall k: nat | k >= Missing(history) ensures k >= wrong <==> HarmlessFor(ps, added, k) {
        sub.CachesBeyondIsRight(before, f, k);
        SkipExactly(sub.wn1, before, ps, sub.m, sub.n, f, added, added && memory.iupdat > memory.m, k);
        sub.CachesBeyondIsRight(ps, {}, k);
      }
    }

    /** With the same pairs and free variables, or no pairs at all, nothing changes. */
    lemma IdleKeeps(ps: seq<Pair>, now: set<int>, added: bool, dropped: bool)
      requires Law() && Follows(before, ps, added, dropped) && |ps| <= sub.m && Sized(ps, sub.n)
      requires ps == [] || (!added && now == f)
      ensures forall k: nat {:trigger sub.RightBeyond(ps, now, k)} ::
        sub.RightBeyond(ps, now, k) <==> k >= Missing(history)
    {
      if ps == [] {
        AnyIsRight(f);
        AnyIsRight(now);
        assert before == [] && sub.RightBeyond(before, f, 0);
      }
    }

    /** The end of an iteration after a step. */
    method Finish(g: array<real>, r: array<real>, d: array<real>, stp: real, epsmch: real)
      requires Middle() && g.Length == r.Length == d.Length == sub.n + 1 && g != r && g != d && r != d
      requires Dot(Vec(r), Vec(d)) < 0.0 && stp > 0.0 && epsmch >= 0.0
      modifies memory, memory.ws, memory.wy, memory.ss, memory.sy, r, d, this`iter
      ensures Top() && iter == old(iter) + 1
      ensures Vec(r) == Minus(Vec(g), old(Vec(r))) && Vec(d) == Scaled(stp, old(Vec(d)))
      ensures memory.updatd <==> Dot(Vec(d), Vec(r)) > epsmch * -Dot(old(Vec(r)), Vec(d))
      ensures memory.pairs == old(memory.pairs) + if memory.updatd then [Pair(Vec(d), Vec(r))] else []
    {
      hide Stored, Products, Dot, All, Splits, Lists, Follows, Missing;
      var gd := Ddot(g, d, 1);
      var gdold := Ddot(r, d, 1);
      var dtd := Ddot(d, d, 1);
      ghost var pairs0, kept0 := memory.pairs, memory.kept;
      iter := iter + 1;
      memory.EndIteration(g, r, d, gd, gdold, stp, dtd, epsmch);
      KeptFollows(pairs0, kept0, memory.pairs, memory.kept, memory.updatd, Pair(Vec(d), Vec(r)), memory.m);
    }

    ghost function Now(ended: bool): State
      reads this, memory
    {
      State(iter, memory.pairs, memory.updatd, f, ended)
    }

    /** The step to the new point; the memory is refreshed if its update is refused. */
    method Move(g: Vector, r: Vector, d: Vector, stp: real, refused: bool, epsmch: real)
      requires Middle() && |g| == |r| == |d| == sub.n && Dot(r, d) < 0.0 && stp > 0.0 && epsmch >= 0.0
      modifies this`iter, this`before, this`history, memory, memory.ws, memory.wy, memory.ss, memory.sy
      ensures Top() && history == old(history) + if refused then [Restart] else []
      ensures iter == old(iter) + 1 && (refused ==> memory.pairs == [] && !memory.updatd)
      ensures !refused ==> (memory.updatd <==> Dot(Scaled(stp, d), Minus(g, r)) > epsmch * -Dot(r, Scaled(stp, d)))
      ensures !refused ==>
        memory.pairs == old(memory.pairs) + if memory.updatd then [Pair(Scaled(stp, d), Minus(g, r))] else []
    {
      var ga := FromVector(g);
      var ra := FromVector(r);
      var da := FromVector(d);
      hide Linked, Law, Follows, Dot, Stored, Products, Scaled, Minus;
      Finish(ga, ra, da, stp, epsmch);
      if refused {
        assert Linked() && Law();
        Refresh();
      }
    }

    /** The rest of a pass after the place of formk. */
    method Conclude(p: Pass, epsmch: real) returns (ended: bool)
      requires Middle() && Possible(p, sub.n, cnstnd) && !FailsInSearch(Now(false), p, cnstnd) && epsmch >= 0.0
      requires f == FreeIn(p.iwhere, sub.n)
      modifies this`iter, this`before, this`history, memory, memory.ws, memory.wy, memory.ss, memory.sy
      ensures Linked() && Law() && (!ended ==> Top())
      ensures Now(ended) == After(old(Now(false)), p, sub.n, cnstnd, epsmch)
      ensures history == old(history) + if Refreshes(old(Now(false)), p, cnstnd) then [Restart] else []
    {
      hide Stored, Products, Dot, All, FreeIn, Splits, Lists, Follows, Missing, Scaled, Minus;
      ended := false;
      assert memory.col == 0 <==> memory.pairs == [];
      if p.outcome.Moves? {
        Move(p.outcome.g, p.outcome.r, p.outcome.d, p.outcome.stp, p.outcome.refused, epsmch);
      } else if p.outcome.Converges? || memory.col == 0 {
        iter := iter + 1;
        ended := true;
      } else {
        Refresh();
      }
    }

    /** One pass of the loop; the loop ends when the step converges or fails with an empty memory. */
    method Step(p: Pass, epsmch: real) returns (ended: bool, ghost es: seq<Event>)
      requires Top() && Possible(p, sub.n, cnstnd) && epsmch >= 0.0
      modifies this`iter, this`before, this`f, this`history, sub.wn1
      modifies memory, memory.ws, memory.wy, memory.ss, memory.sy, free, free.indx, free.indx2
      ensures Linked() && Law() && (!ended ==> Top())
      ensures Now(ended) == After(old(Now(false)), p, sub.n, cnstnd, epsmch)
      ensures EndsAsItShould(p.outcome, old(memory.pairs), memory.pairs, ended)
      ensures history == old(history) + es && SuitsPass(es, old(Now(false)), p, sub.n, sub.m, cnstnd)
    {
      hide Stored, Products, Dot, All, FreeIn, Splits, Lists, Follows, Missing, HarmlessNow, After, Law;
      hide EndsAsItShould;
      ghost var t := Now(false);
      PassEnds(t, p, sub.n, cnstnd, epsmch);
      assert memory.col == 0 <==> memory.pairs == [];
      if p.outcome.SearchFails? && (cnstnd || memory.col == 0) {
        Unmoved(t, p, sub.n, cnstnd, epsmch);
        Refresh();
        return false, [Restart];
      }
      var iwhere := new int[sub.n + 1](i requires 0 <= i < |p.iwhere| => p.iwhere[i]);
      assert iwhere[..] == p.iwhere;
      ghost var e := Form(iwhere);
      FreeIsReplaced(t, f, p, sub.n, cnstnd, epsmch);
      assert Now(false) == t.(free := f);
      ended := Conclude(p, epsmch);
      es := history[|old(history)|..];
    }

    /**
     * Any number of passes. The matrix is right at the end exactly when nothing is missing, and
     * that is so if some variable was free in every pass.
     */
    method Run(passes: seq<Pass>, epsmch: real) returns (ended: bool, ghost es: seq<Event>)
      requires Top() && epsmch >= 0.0 && AllPossible(passes, sub.n, cnstnd)
      modifies this`iter, this`before, this`f, this`history, sub.wn1
      modifies memory, memory.ws, memory.wy, memory.ss, memory.sy, free, free.indx, free.indx2
      ensures Linked() && Law() && (!ended ==> Top())
      ensures Now(ended) == AfterAll(old(Now(false)), passes, sub.n, cnstnd, epsmch)
      ensures history == old(history) + es
      ensures Records(es, old(Now(false)), passes, sub.n, sub.m, cnstnd, epsmch)
      ensures Caches(sub.wn1, before, sub.m, sub.n, f) <==> Missing(history) == 0
      ensures old(Missing(history)) == 0 && AlwaysFree(passes, sub.n, cnstnd) ==>
        Caches(sub.wn1, before, sub.m, sub.n, f)
    {
      hide After, SuitsPass, Possible, Missing, Caches, FreeIn, Follows, Records, AfterAll, Linked, Law, AlwaysFree;
      ended, es := false, [];
      ghost var t := Now(false);
      NoPasses(t, sub.n, sub.m, cnstnd, epsmch);
      var done := 0;
      while done < |passes|
        invariant done <= |passes| && Linked() && Law() && (!ended ==> Top())
        invariant AllPossible(passes[..done], sub.n, cnstnd)
        invariant Now(ended) == AfterAll(t, passes[..done], sub.n, cnstnd, epsmch)
        invariant history == old(history) + es && Records(es, t, passes[..done], sub.n, sub.m, cnstnd, epsmch)
      {
        assert passes[..done + 1] == passes[..done] + [passes[done]];
        ghost var u, more := Now(ended), [];
        if !ended {
          ended, more := Step(passes[done], epsmch);
        }
        RecordsOneMore(es, more, t, passes[..done], passes[done], sub.n, sub.m, cnstnd, epsmch);
        es := es + more;
        done := done + 1;
      }
      assert passes[..done] == passes;
      RightExactly();
      if old(Missing(history)) == 0 && AlwaysFree(passes, sub.n, cnstnd) {
        NothingLeftOut(es, t, passes, sub.n, sub.m, cnstnd, epsmch);
        StaysRight(old(history), es);
      }
    }
  }
}
