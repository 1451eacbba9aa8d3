/** cauchy: the search for the first minimum of the model along the path of the projected gradient; and active. */
module CauchyPoint {
  import opened Basics
  import opened Blas
  import opened BoxPath
  import opened BreakpointHeap
  import opened ModelPath
  import opened PassingOrder
  import opened QuadraticModel
  import opened Vectors

  // ----- the search -----

  /** How the search ends: a solve has failed, all variables are fixed, or a point within a segment is reached. */
  datatype End = Singular | AllFixed | Inside

  class PathSearch {
    const n: nat
    const x: array<real>
    const l: array<real>
    const u: array<real>
    const g: array<real>
    const nbd: array<int>
    const iwhere: array<int>
    const iorder: array<int>
    const t: array<real>
    const d: array<real>
    const xcp: array<real>

    constructor (n: nat, x: array<real>, l: array<real>, u: array<real>, g: array<real>, nbd: array<int>)
      requires x.Length == l.Length == u.Length == g.Length == nbd.Length == n + 1
      ensures Shapes() && this.n == n && this.x == x && this.l == l && this.u == u && this.g == g && this.nbd == nbd
      ensures fresh(iwhere) && fresh(iorder) && fresh(t) && fresh(d) && fresh(xcp)
    {
      this.n, this.x, this.l, this.u, this.g, this.nbd := n, x, l, u, g, nbd;
      iwhere := new int[n + 1];
      iorder := new int[n + 1];
      t := new real[n + 1];
      d := new real[n + 1];
      xcp := new real[n + 1];
    }

    ghost predicate Shapes() {
      && x.Length == l.Length == u.Length == g.Length == nbd.Length == n + 1
      && iwhere.Length == iorder.Length == t.Length == d.Length == xcp.Length == n + 1
      && iwhere != iorder && iwhere != nbd && iorder != nbd
      && t !in {x, l, u, g} && d !in {x, l, u, g} && xcp !in {x, l, u, g} && t != d && t != xcp && d != xcp
    }

    /** vs describes the given problem. */
    ghost predicate Given(vs: seq<Var>)
      reads x, l, u, g, nbd
    {
      && Shapes() && |vs| == n + 1
      && forall i :: 1 <= i <= n ==>
        vs[i] == Var(x[i], l[i], u[i], nbd[i], g[i], vs[i].status) && vs[i].Sane()
    }

    /** Status and direction of variable i when the search starts; bound tells whether it meets a bound, and where. */
    method Classify(i: nat, ghost vs: seq<Var>) returns (moves: bool, meets: bool, at: real)
      requires Given(vs) && 1 <= i <= n && iwhere[i] == vs[i].status
      modifies iwhere, d
      ensures iwhere[i] == vs[i].Status() && d[i] == vs[i].Direction()
      ensures forall k :: 0 <= k <= n && k != i ==> iwhere[k] == old(iwhere[k]) && d[k] == old(d[k])
      ensures moves <==> vs[i].Moves()
      ensures meets <==> vs[i].Meets()
      ensures meets ==> at == vs[i].MeetsAt()
    {
      moves := false;
      meets := false;
      at := 0.0;
      var tl, tu := 0.0, 0.0;
      var neggi := -g[i];
      if iwhere[i] != 3 && iwhere[i] != -1 {
        if nbd[i] <= 2 {
          tl := x[i] - l[i];
        }
        if nbd[i] >= 2 {
          tu := u[i] - x[i];
        }
        var xlower := nbd[i] <= 2 && tl <= 0.0;
        var xupper := nbd[i] >= 2 && tu <= 0.0;
        iwhere[i] := 0;
        if xlower {
          if neggi <= 0.0 {
            iwhere[i] := 1;
          }
        } else if xupper {
          if neggi >= 0.0 {
            iwhere[i] := 2;
          }
        } else {
          if Abs(neggi) <= 0.0 {
            iwhere[i] := -3;
          }
        }
      }
      if iwhere[i] != 0 && iwhere[i] != -1 {
        d[i] := 0.0;
      } else {
        d[i] := neggi;
        moves := true;
        if nbd[i] <= 2 && nbd[i] != 0 && neggi < 0.0 {
          meets := true;
          at := tl / -neggi;
        } else if nbd[i] >= 2 && neggi > 0.0 {
          meets := true;
          at := tu / neggi;
        }
      }
    }

    /** Among variables 1..k, those that move meet a bound. */
    ghost predicate MoversMeet(vs: seq<Var>, k: nat) {
      forall i :: 1 <= i <= k < |vs| && vs[i].Moves() ==> vs[i].Meets()
    }

    /** Variables 1..k have been classified and their breakpoints listed. */
    ghost predicate Listed(vs: seq<Var>, k: nat, nbreak: nat, nfree: int)
      requires Given(vs) && k <= n
      reads x, l, u, g, nbd, iwhere, d, t, iorder
    {
      && nbreak + (n + 1 - nfree) <= k && nfree <= n + 1 && (nfree == n + 1 <==> MoversMeet(vs, k))
      && Breaks(t, iorder, nbreak) == Found(vs, k)
      && (forall i :: 1 <= i <= k ==> iwhere[i] == vs[i].Status() && d[i] == vs[i].Direction())
      && (forall i :: k < i <= n ==> iwhere[i] == vs[i].status)
    }

    /** bkmin is the least of the first nbreak breakpoints, and stands first at ibkmin. */
    ghost predicate LeastAt(nbreak: nat, ibkmin: nat, bkmin: real)
      reads t
    {
      nbreak == 0 || (nbreak < t.Length && 1 <= ibkmin <= nbreak && t[ibkmin] == bkmin &&
        forall k :: 1 <= k <= nbreak ==> bkmin <= t[k] && (k < ibkmin ==> bkmin < t[k]))
    }

    /** Appends the breakpoint of variable i. */
    method AppendBreak(i: nat, at: real, nbreak0: nat, ibkmin0: nat, bkmin0: real, ghost b: seq<Break>)
      returns (nbreak: nat, ibkmin: nat, bkmin: real)
      requires Shapes() && nbreak0 < n && Breaks(t, iorder, nbreak0) == b && LeastAt(nbreak0, ibkmin0, bkmin0)
      modifies t, iorder
      ensures nbreak == nbreak0 + 1 && Breaks(t, iorder, nbreak) == b + [Break(at, i)] && LeastAt(nbreak, ibkmin, bkmin)
    {
      nbreak, ibkmin, bkmin := nbreak0 + 1, ibkmin0, bkmin0;
      iorder[nbreak] := i;
      t[nbreak] := at;
      if nbreak == 1 || t[nbreak] < bkmin {
        bkmin := t[nbreak];
        ibkmin := nbreak;
      }
      assert Breaks(t, iorder, nbreak)[..nbreak - 1] == b;
    }

    /** slope works on arrays of its own. */
    ghost predicate Separate(slope: Derivatives) {
      && slope.n == n && slope.Shapes()
      && slope.p !in {x, l, u, g, t, d, xcp} && slope.c !in {x, l, u, g, t, d, xcp}
      && slope.wbp !in {x, l, u, g, t, d, xcp} && slope.v !in {x, l, u, g, t, d, xcp}
    }

    /** The directions of variables 1..k. */
    ghost function Started(vs: seq<Var>, k: nat): (r: Vector)
      requires |vs| == n + 1
      ensures |r| == n && forall i :: 0 <= i < n ==> r[i] == if i < k then vs[i + 1].Direction() else 0.0
    {
      seq(n, i requires 0 <= i < n => if i < k then vs[i + 1].Direction() else 0.0)
    }

    /** Among variables 1..k, those that meet no bound stand still. */
    ghost predicate OthersStill(vs: seq<Var>, k: nat) {
      forall i :: 1 <= i <= k < |vs| && !vs[i].Meets() ==> vs[i].Direction() == 0.0
    }

    /** One round of the first loop of cauchy. */
    method PrepareOne(i: nat, nbreak0: nat, nfree0: int, ibkmin0: nat, bkmin0: real, bnded0: bool, slope: Derivatives,
                      ghost vs: seq<Var>)
      returns (nbreak: nat, nfree: int, ibkmin: nat, bkmin: real, bnded: bool)
      requires Given(vs) && 1 <= i <= n && Listed(vs, i - 1, nbreak0, nfree0) && LeastAt(nbreak0, ibkmin0, bkmin0)
      requires Separate(slope) && slope.Ring() && slope.Building(Started(vs, i - 1))
      requires bnded0 <==> OthersStill(vs, i - 1)
      modifies iwhere, d, t, iorder, slope`f1, slope.p
      ensures Given(vs) && Listed(vs, i, nbreak, nfree) && LeastAt(nbreak, ibkmin, bkmin)
      ensures slope.Building(Started(vs, i)) && (bnded <==> OthersStill(vs, i))
    {
      hide LeastAt, Breaks, Dot, Trans, Found, OthersStill, MoversMeet, Started;
      var moves, meets, at := Classify(i, vs);
      OneMoreStarted(vs, i);
      if moves {
        slope.Include(i, d[i], Started(vs, i - 1));
      }
      nbreak, nfree, ibkmin, bkmin, bnded := Enlist(i, moves, meets, at, nbreak0, nfree0, ibkmin0, bkmin0, bnded0, vs);
    }

    /** Lists variable i with the breakpoints, or with the variables that meet no bound. */
    method Enlist(i: nat, moves: bool, meets: bool, at: real, nbreak0: nat, nfree0: int, ibkmin0: nat, bkmin0: real,
                  bnded0: bool, ghost vs: seq<Var>)
      returns (nbreak: nat, nfree: int, ibkmin: nat, bkmin: real, bnded: bool)
      requires Shapes() && |vs| == n + 1 && 1 <= i <= n && nbreak0 + (n + 1 - nfree0) <= i - 1 && nfree0 <= n + 1
      requires Breaks(t, iorder, nbreak0) == Found(vs, i - 1) && LeastAt(nbreak0, ibkmin0, bkmin0)
      requires (moves <==> vs[i].Moves()) && (meets <==> vs[i].Meets()) && (meets ==> at == vs[i].MeetsAt())
      requires d[i] == vs[i].Direction() && (bnded0 <==> OthersStill(vs, i - 1))
      requires nfree0 == n + 1 <==> MoversMeet(vs, i - 1)
      modifies t, iorder
      ensures nbreak + (n + 1 - nfree) <= i && nfree <= n + 1 && (nfree == n + 1 <==> MoversMeet(vs, i))
      ensures Breaks(t, iorder, nbreak) == Found(vs, i) && LeastAt(nbreak, ibkmin, bkmin)
      ensures bnded <==> OthersStill(vs, i)
    {
      hide LeastAt, Breaks, Var.MeetsAt;
      nbreak, nfree, ibkmin, bkmin, bnded := nbreak0, nfree0, ibkmin0, bkmin0, bnded0;
      if meets {
        nbreak, ibkmin, bkmin := AppendBreak(i, at, nbreak, ibkmin, bkmin, Found(vs, i - 1));
      } else if moves {
        nfree := nfree - 1;
        SetOrder(nfree, i, nbreak);
        if Abs(d[i]) > 0.0 {
          bnded := false;
        }
      }
    }

    lemma OneMoreStarted(vs: seq<Var>, i: nat)
      requires |vs| == n + 1 && 1 <= i <= n
      ensures Started(vs, i) == Started(vs, i - 1)[i - 1 := vs[i].Direction()]
      ensures Started(vs, i - 1)[i - 1] == 0.0
      ensures vs[i].Direction() == 0.0 ==> Started(vs, i) == Started(vs, i - 1)
    {
    }

    /** The first loop of cauchy. */
    method Prepare(slope: Derivatives, ghost vs: seq<Var>)
      returns (nbreak: nat, nfree: int, ibkmin: nat, bkmin: real, bnded: bool)
      requires Given(vs) && forall i :: 1 <= i <= n ==> iwhere[i] == vs[i].status
      requires Separate(slope) && slope.Ring()
      modifies iwhere, d, t, iorder, slope`f1, slope.p
      ensures Listed(vs, n, nbreak, nfree) && LeastAt(nbreak, ibkmin, bkmin)
      ensures slope.Building(Started(vs, n)) && (bnded <==> OthersStill(vs, n))
    {
      hide LeastAt, Breaks, Dot, Trans, IsSymmetric, Listed, OthersStill, Started, Zeros, Var.Sane;
      nbreak, nfree, ibkmin, bkmin, bnded := 0, n + 1, 0, 0.0, true;
      NothingYet(vs, ibkmin, bkmin);
      slope.Clear();
      var i := 1;
      while i <= n
        invariant 1 <= i <= n + 1 && Given(vs) && Listed(vs, i - 1, nbreak, nfree) && LeastAt(nbreak, ibkmin, bkmin)
        invariant slope.Ring() && slope.Building(Started(vs, i - 1)) && (bnded <==> OthersStill(vs, i - 1))
      {
        nbreak, nfree, ibkmin, bkmin, bnded := PrepareOne(i, nbreak, nfree, ibkmin, bkmin, bnded, slope, vs);
        i := i + 1;
      }
    }

    lemma NothingYet(vs: seq<Var>, ibkmin: nat, bkmin: real)
      requires Given(vs) && forall i :: 1 <= i <= n ==> iwhere[i] == vs[i].status
      ensures Listed(vs, 0, 0, n + 1) && LeastAt(0, ibkmin, bkmin)
      ensures OthersStill(vs, 0) && Started(vs, 0) == Zeros(n)
    {
    }

    /** Lists a variable from the end. */
    method SetOrder(p: int, i: nat, ghost nbreak: nat)
      requires Shapes() && nbreak < p <= n
      modifies iorder
      ensures Breaks(t, iorder, nbreak) == old(Breaks(t, iorder, nbreak))
    {
      iorder[p] := i;
    }

    /** queue are the breakpoints still ahead; in which form the arrays hold them depends on iter. */
    ghost predicate Pending(iter: nat, nleft: nat, nbreak: nat, ibkmin: nat, bkmin: real, queue: seq<Break>)
      reads t, iorder
    {
      && Shapes() && 1 <= iter && nleft <= nbreak <= n && |queue| == nleft
      && (iter == 1 ==> nleft == nbreak && queue == Order(Breaks(t, iorder, nbreak)) && LeastAt(nbreak, ibkmin, bkmin))
      && (iter == 2 ==> (nleft == nbreak - 1 && 1 <= ibkmin <= nbreak && |Breaks(t, iorder, nbreak)| == nbreak &&
        queue == Drain(WithoutGap(Breaks(t, iorder, nbreak), ibkmin - 1), true)))
      && (iter > 2 ==> queue == Drain(Breaks(t, iorder, nleft), false) && IsHeap(Breaks(t, iorder, nleft), nleft))
    }

    lemma PendingAscends(iter: nat, nleft: nat, nbreak: nat, ibkmin: nat, bkmin: real, queue: seq<Break>)
      requires Pending(iter, nleft, nbreak, ibkmin, bkmin, queue)
      ensures Ascending(queue)
    {
      hide IsHeap, Order, Drain, WithoutGap, LeastAt, Ascending;
      if iter == 1 {
        OrderAscends(Breaks(t, iorder, nbreak));
      } else if iter == 2 {
        DrainIsSorted(WithoutGap(Breaks(t, iorder, nbreak), ibkmin - 1), true);
      } else {
        DrainIsSorted(Breaks(t, iorder, nleft), false);
      }
    }

    lemma FirstPending(iter: nat, nleft: nat, nbreak: nat, ibkmin: nat, bkmin: real, queue: seq<Break>)
      requires Pending(iter, nleft, nbreak, ibkmin, bkmin, queue)
      ensures queue != [] ==> forall b :: b in queue ==> queue[0].at <= b.at
    {
      hide Pending;
      PendingAscends(iter, nleft, nbreak, ibkmin, bkmin, queue);
    }

    /** The next breakpoint, a least one of those ahead. */
    method NextBreak(iter: nat, nleft: nat, nbreak: nat, ibkmin: nat, bkmin: real, ghost queue: seq<Break>)
      returns (tj: real, ibp: int)
      requires Pending(iter, nleft, nbreak, ibkmin, bkmin, queue) && nleft > 0
      modifies t, iorder
      ensures Break(tj, ibp) == queue[0] && forall b :: b in queue ==> tj <= b.at
      ensures Pending(iter + 1, nleft - 1, nbreak, ibkmin, bkmin, queue[1..])
    {
      hide IsHeap, Breaks, LeastAt, Order, Drain, WithoutGap, Solved, Ascending;
      assert forall b :: b in queue ==> queue[0].at <= b.at by {
        FirstPending(iter, nleft, nbreak, ibkmin, bkmin, queue);
      }
      if iter == 1 {
        FirstOfOrder(nbreak, ibkmin, bkmin);
        tj := bkmin;
        ibp := iorder[ibkmin];
      } else {
        if iter == 2 {
          CloseGap(nbreak, ibkmin);
        }
        tj, ibp := LeastByHeap(nleft, iter - 2);
      }
    }

    /** The first loop has marked the one that comes first in the order. */
    lemma FirstOfOrder(nbreak: nat, ibkmin: nat, bkmin: real)
      requires Shapes() && 1 <= nbreak <= n && LeastAt(nbreak, ibkmin, bkmin)
      ensures 1 <= ibkmin <= nbreak && bkmin == t[ibkmin] && |Breaks(t, iorder, nbreak)| == nbreak
      ensures var b := Breaks(t, iorder, nbreak);
        Order(b) == [Break(bkmin, iorder[ibkmin])] + Drain(WithoutGap(b, ibkmin - 1), true)
    {
      hide Drain, WithoutGap;
      FirstOfLeastIsIndex(Breaks(t, iorder, nbreak), ibkmin - 1);
    }

    /** The least of the breakpoints 1..nleft, which moves to the end. */
    method LeastByHeap(nleft: nat, iheap: nat) returns (tj: real, ibp: int)
      requires Shapes() && 1 <= nleft <= n
      requires iheap > 0 ==> IsHeap(Breaks(t, iorder, nleft), nleft)
      modifies t, iorder
      ensures Drain(old(Breaks(t, iorder, nleft)), iheap == 0) ==
              [Break(tj, ibp)] + Drain(Breaks(t, iorder, nleft - 1), false)
      ensures IsHeap(Breaks(t, iorder, nleft - 1), nleft - 1)
    {
      hide IsHeap, Breaks, Solved;
      ghost var b := Breaks(t, iorder, nleft);
      BreaksAt(t, iorder, nleft, nleft);
      DrainStep(b, iheap == 0);
      hide Drain;
      Hpsolb(nleft, t, iorder, iheap);
      tj := t[nleft];
      ibp := iorder[nleft];
      BreaksAt(t, iorder, nleft, nleft);
      ShorterList(nleft);
      HeapOfPrefix(Breaks(t, iorder, nleft), Breaks(t, iorder, nleft - 1), nleft - 1);
    }

    /** Overwrites the breakpoint used first by the last one. */
    method CloseGap(nbreak: nat, ibkmin: nat)
      requires Shapes() && 1 <= ibkmin <= nbreak <= n && |Breaks(t, iorder, nbreak)| == nbreak
      modifies t, iorder
      ensures Breaks(t, iorder, nbreak - 1) == WithoutGap(old(Breaks(t, iorder, nbreak)), ibkmin - 1)
    {
      hide Breaks;
      ghost var b := Breaks(t, iorder, nbreak);
      BreaksAt(t, iorder, nbreak, ibkmin);
      if ibkmin != nbreak {
        BreaksAt(t, iorder, nbreak, nbreak);
        Put(t, iorder, ibkmin, t[nbreak], iorder[nbreak], nbreak, b);
      }
      ghost var b1 := Breaks(t, iorder, nbreak);
      assert b1 == b[ibkmin - 1 := b[nbreak - 1]];
      ShorterList(nbreak);
    }

    lemma ShorterList(nbreak: nat)
      requires Shapes() && 1 <= nbreak <= n
      ensures |Breaks(t, iorder, nbreak)| == nbreak && |Breaks(t, iorder, nbreak - 1)| == nbreak - 1
      ensures Breaks(t, iorder, nbreak - 1) == Breaks(t, iorder, nbreak)[..nbreak - 1]
    {
    }

    /** Variable i while the breakpoints rem are ahead: at its bound, or where it started with its direction. */
    ghost predicate OnPath(v: Var, i: nat, rem: multiset<Break>, tsum: real)
      requires Shapes() && 1 <= i <= n
      reads iwhere, d, xcp
    {
      if v.Meets() && Break(v.MeetsAt(), i) !in rem then
        && v.MeetsAt() <= tsum && d[i] == 0.0 && xcp[i] == v.Bound()
        && iwhere[i] == if v.g > 0.0 then 1 else 2
      else
        d[i] == v.Direction() && xcp[i] == v.x && iwhere[i] == v.Status()
    }

    /** The breakpoints of rem are those of variables, each at most once, and none lies before tsum. */
    ghost predicate Ahead(vs: seq<Var>, rem: multiset<Break>, tsum: real) {
      && Shapes() && |vs| == n + 1 && tsum >= 0.0
      && (forall b :: b in rem ==> IsBreak(vs, n, b) && rem[b] == 1 && tsum <= b.at)
    }

    ghost predicate Along(vs: seq<Var>, rem: multiset<Break>, tsum: real)
      reads x, l, u, g, nbd, iwhere, d, xcp
    {
      && Given(vs) && Ahead(vs, rem, tsum)
      && forall i :: 1 <= i <= n ==> OnPath(vs[i], i, rem, tsum)
    }

    /** Variable ibp has reached its bound; dibp was its direction and zibp is how far it has moved. */
    method Fix(ibp: int, ghost vs: seq<Var>, ghost rem: multiset<Break>, ghost tsum0: real, ghost tsum: real)
      returns (dibp: real, zibp: real)
      requires Along(vs, rem, tsum0) && tsum0 <= tsum && Break(tsum, ibp) in rem
      requires forall b :: b in rem ==> tsum <= b.at
      modifies d, xcp, iwhere
      ensures Along(vs, rem - multiset{Break(tsum, ibp)}, tsum)
      ensures IsBreak(vs, n, Break(tsum, ibp)) && dibp == old(d[ibp]) == vs[ibp].Direction()
      ensures zibp == vs[ibp].Bound() - vs[ibp].x && Vec(d) == old(Vec(d))[ibp - 1 := 0.0]
    {
      ghost var b, rem' := Break(tsum, ibp), rem - multiset{Break(tsum, ibp)};
      assert IsBreak(vs, n, b) && rem[b] == 1;
      assert OnPath(vs[ibp], ibp, rem, tsum0);
      dibp := d[ibp];
      d[ibp] := 0.0;
      if dibp > 0.0 {
        zibp := u[ibp] - x[ibp];
        xcp[ibp] := u[ibp];
        iwhere[ibp] := 2;
      } else {
        zibp := l[ibp] - x[ibp];
        xcp[ibp] := l[ibp];
        iwhere[ibp] := 1;
      }
      forall i | 1 <= i <= n ensures OnPath(vs[i], i, rem', tsum) {
        assert old(OnPath(vs[i], i, rem, tsum0));
      }
    }

    /** xcp is the point of the path at tsum. */
    ghost predicate AtPath(vs: seq<Var>, tsum: real)
      requires |vs| == n + 1 && Shapes()
      reads xcp
    {
      forall i :: 1 <= i <= n ==> xcp[i] == vs[i].Path(tsum)
    }

    /** A variable that iwhere reports as fixed is at that bound. */
    ghost predicate StatusRight(vs: seq<Var>)
      requires |vs| == n + 1 && Shapes()
      reads xcp, iwhere
    {
      forall i :: 1 <= i <= n ==>
        (iwhere[i] == 1 ==> vs[i].HasLower() && xcp[i] == vs[i].l) &&
        (iwhere[i] == 2 ==> vs[i].HasUpper() && xcp[i] == vs[i].u)
    }

    lemma MovedAt(z: Vector, a: real, w: Vector, k: int)
      requires 0 <= k < |z| == |w|
      ensures Plus(z, Scaled(a, w))[k] == Moved(z[k], a, w[k])
    {
    }

    /** Moves the variables that have not met a bound. */
    method MoveFree(tsum: real, ghost tsum0: real, ghost vs: seq<Var>, ghost rem: multiset<Break>)
      requires Along(vs, rem, tsum0) && tsum0 <= tsum && forall b :: b in rem ==> tsum <= b.at
      modifies xcp
      ensures AtPath(vs, tsum) && StatusRight(vs)
    {
      hide Moved, Var.Path;
      Daxpy(tsum, d, xcp);
      forall k | 1 <= k <= n
        ensures xcp[k] == vs[k].Path(tsum)
        ensures iwhere[k] == 1 ==> vs[k].HasLower() && xcp[k] == vs[k].l
        ensures iwhere[k] == 2 ==> vs[k].HasUpper() && xcp[k] == vs[k].u
      {
        assert old(OnPath(vs[k], k, rem, tsum0));
        MovedAt(old(Vec(xcp)), tsum, Vec(d), k - 1);
        PathReached(vs[k], k, rem, tsum0, tsum, old(xcp[k]), d[k], iwhere[k]);
        assert xcp[k] == Vec(xcp)[k - 1];
      }
    }

    /** The breakpoints passed so far and those ahead, in the order in which they are taken. */
    ghost predicate Passed(vs: seq<Var>, passed: seq<Break>, queue: seq<Break>, tsum: real) {
      && |vs| == n + 1 && passed + queue == Passing(vs)
      && forall i :: 0 <= i < |passed| ==> passed[i].at <= tsum
    }

    /** Passes the next breakpoint, unless the stationary point at distance dtm comes first (stop). */
    method Pass(iter: nat, nleft: nat, nbreak: nat, ibkmin: nat, bkmin: real, tj0: real, dtm: real,
                ghost vs: seq<Var>, ghost queue: seq<Break>)
      returns (stop: bool, tj: real, ibp: int, dibp: real, zibp: real)
      requires Pending(iter, nleft, nbreak, ibkmin, bkmin, queue) && nleft > 0 && Along(vs, multiset(queue), tj0)
      modifies d, xcp, iwhere, t, iorder
      ensures stop <==> dtm < queue[0].at - tj0
      ensures forall b :: b in queue ==> queue[0].at <= b.at
      ensures stop ==> tj == tj0 && Along(vs, multiset(queue), tj) && Vec(d) == old(Vec(d))
      ensures !stop ==>
        && Pending(iter + 1, nleft - 1, nbreak, ibkmin, bkmin, queue[1..]) && Along(vs, multiset(queue[1..]), tj)
        && tj0 <= tj && queue[0] == Break(tj, ibp) && IsBreak(vs, n, queue[0])
        && dibp == old(d[ibp]) == vs[ibp].Direction() && zibp == vs[ibp].Bound() - vs[ibp].x
        && Vec(d) == old(Vec(d))[ibp - 1 := 0.0]
    {
      hide OnPath, Pending;
      assert |queue| == nleft by {
        PendingSize(iter, nleft, nbreak, ibkmin, bkmin, queue);
      }
      ghost var rem := multiset(queue);
      WithoutFirst(queue);
      dibp, zibp := 0.0, 0.0;
      tj, ibp := NextBreak(iter, nleft, nbreak, ibkmin, bkmin, queue);
      assert queue[0] in rem;
      assert forall b :: b in rem ==> b in queue;
      var dt := tj - tj0;
      stop := dtm < dt;
      if stop {
        tj := tj0;
        return;
      }
      dibp, zibp := Fix(ibp, vs, rem, tj0, tj);
    }

    lemma PendingSize(iter: nat, nleft: nat, nbreak: nat, ibkmin: nat, bkmin: real, queue: seq<Break>)
      requires Pending(iter, nleft, nbreak, ibkmin, bkmin, queue)
      ensures |queue| == nleft
    {
    }

    lemma WithoutFirst(queue: seq<Break>)
      requires queue != []
      ensures multiset(queue[1..]) == multiset(queue) - multiset{queue[0]}
    {
      assert queue == [queue[0]] + queue[1..];
    }

    lemma PassOne(vs: seq<Var>, passed: seq<Break>, queue: seq<Break>, tsum0: real, tsum: real)
      requires Passed(vs, passed, queue, tsum0) && queue != [] && tsum0 <= tsum == queue[0].at
      ensures Passed(vs, passed + [queue[0]], queue[1..], tsum)
    {
    }

    /** What is passed and what is ahead make up all breakpoints, and none ahead lies before one that is passed. */
    lemma PassedContents(vs: seq<Var>, passed: seq<Break>, queue: seq<Break>, tsum: real)
      requires Passed(vs, passed, queue, tsum)
      ensures multiset(passed) + multiset(queue) == multiset(Found(vs, n)) && Ascending(passed + queue)
    {
      hide Order, Found;
      OrderAscends(Found(vs, n));
    }

    /** The variables of the breakpoints passed are stopped. */
    lemma DirectionIsStopped(vs: seq<Var>, passed: seq<Break>, queue: seq<Break>, tsum: real)
      requires Along(vs, multiset(queue), tsum) && Passed(vs, passed, queue, tsum)
      ensures Vec(d) == Stopped(vs, passed)
    {
      hide Passing, Var.MeetsAt, Var.Meets, Found;
      PassedContents(vs, passed, queue, tsum);
      forall k | 0 <= k < n ensures Vec(d)[k] == Stopped(vs, passed)[k] {
        StoppedAt(vs, passed, queue, tsum, k + 1);
      }
    }

    /** A variable is stopped exactly if its breakpoint has been passed. */
    lemma StoppedAt(vs: seq<Var>, passed: seq<Break>, queue: seq<Break>, tsum: real, i: int)
      requires Along(vs, multiset(queue), tsum) && Passed(vs, passed, queue, tsum) && 1 <= i <= n
      requires multiset(passed) + multiset(queue) == multiset(Found(vs, n))
      ensures d[i] == if Has(passed, i) then 0.0 else vs[i].Direction()
    {
      hide Passing, Var.MeetsAt, Var.Meets, Found;
      assert OnPath(vs[i], i, multiset(queue), tsum);
      var b := Break(vs[i].MeetsAt(), i);
      FoundExactly(vs, n, b);
      if Has(passed, i) {
        var j :| 0 <= j < |passed| && passed[j].variable == i;
        assert passed[j] in multiset(passed);
        FoundExactly(vs, n, passed[j]);
      } else if b in passed {
        assert false;
      }
    }

    /** One variable up to the next breakpoint. */
    lemma MovesStraight(vs: seq<Var>, rem: multiset<Break>, tsum: real, r: real, k: int)
      requires Along(vs, rem, tsum) && tsum <= r && NoneBefore(rem, r) && 1 <= k <= n
      ensures vs[k].Path(r) == vs[k].Path(tsum) + Times(r - tsum, d[k])
    {
      hide Var.Path, Times, Moved;
      assert OnPath(vs[k], k, rem, tsum);
      PathReached(vs[k], k, rem, tsum, r, xcp[k], d[k], iwhere[k]);
      PathReached(vs[k], k, rem, tsum, tsum, xcp[k], d[k], iwhere[k]);
      MovedBetween(xcp[k], tsum, r, d[k]);
    }

    /** Up to the next breakpoint the variables go straight on. */
    lemma GoesStraight(vs: seq<Var>, rem: multiset<Break>, tsum: real)
      requires Along(vs, rem, tsum)
      ensures Straight(vs, rem, tsum, Vec(d))
    {
      hide Along, NoneBefore, NoneUntil, Plus, Scaled, Displaced, Heading;
      AllGiven(vs, rem, tsum);
      forall r | tsum <= r && NoneBefore(rem, r)
        ensures Displaced(vs, r) == Plus(Displaced(vs, tsum), Scaled(r - tsum, Vec(d)))
      {
        AllMoveStraight(vs, rem, tsum, r);
      }
      forall r | tsum <= r && NoneUntil(rem, r) ensures Heading(vs, r) == Vec(d) {
        AllKeepDirection(vs, rem, tsum, r);
      }
    }

    lemma AllGiven(vs: seq<Var>, rem: multiset<Break>, tsum: real)
      requires Along(vs, rem, tsum)
      ensures Shapes() && |vs| == n + 1
    {
    }

    lemma AllMoveStraight(vs: seq<Var>, rem: multiset<Break>, tsum: real, r: real)
      requires Along(vs, rem, tsum) && tsum <= r && NoneBefore(rem, r)
      ensures Displaced(vs, r) == Plus(Displaced(vs, tsum), Scaled(r - tsum, Vec(d)))
    {
      hide Var.Path, Times, Moved, OnPath, NoneBefore;
      var to := Plus(Displaced(vs, tsum), Scaled(r - tsum, Vec(d)));
      forall k | 0 <= k < n ensures Displaced(vs, r)[k] == to[k] {
        MovesStraight(vs, rem, tsum, r, k + 1);
        ScaledIs(r - tsum, Vec(d), k);
      }
    }

    lemma AllKeepDirection(vs: seq<Var>, rem: multiset<Break>, tsum: real, r: real)
      requires Along(vs, rem, tsum) && tsum <= r && NoneUntil(rem, r)
      ensures Heading(vs, r) == Vec(d)
    {
      forall k | 0 <= k < n ensures Heading(vs, r)[k] == Vec(d)[k] {
        assert OnPath(vs[k + 1], k + 1, rem, tsum);
      }
    }

    /** Of the first direction, h keeps some components, not none; its curvature is so small that cauchy raises it. */
    ghost predicate IsFlat(slope: Derivatives, vs: seq<Var>, h: Vector)
      requires slope.Shapes() && |vs| == n + 1 && slope.n == n
    {
      var d0 := Started(vs, n);
      && h != Zeros(n) && IsPart(h, d0)
      && Bilinear(slope.Of(), h, h) < Times(slope.epsmch, Times(slope.theta, Dot(d0, d0)))
    }

    /** No curvature that the search can meet is so small that it is raised. */
    ghost predicate NeverFlat(slope: Derivatives, vs: seq<Var>)
      requires slope.Shapes() && |vs| == n + 1 && slope.n == n
    {
      forall h: Vector :: |h| == n ==> !IsFlat(slope, vs, h)
    }

    /** The curvature is raised only if it is that small, or when nothing moves any more. */
    ghost predicate RaisedIfFlat(slope: Derivatives, vs: seq<Var>, dv: Vector)
      requires slope.Shapes() && |vs| == n + 1 && slope.n == n
      reads slope`clamped, slope`f2org
    {
      && (slope.clamped ==> !NeverFlat(slope, vs) || dv == Zeros(n))
      && slope.f2org == Times(slope.theta, Dot(Started(vs, n), Started(vs, n)))
    }

    /** The model is definite, and no curvature is raised. */
    ghost predicate Curved(slope: Derivatives, vs: seq<Var>)
      requires slope.Shapes() && |vs| == n + 1 && slope.n == n
    {
      NeverFlat(slope, vs) && Definite(slope.Of(), n)
    }

    /**
     * If the model is definite and no curvature is raised, it does not rise before s, and neither at one of the first
     * m breakpoints with some of the variables there stopped.
     */
    ghost predicate Descends(slope: Derivatives, vs: seq<Var>, s: real, m: nat)
      requires slope.Shapes() && |vs| == n + 1 && slope.n == n
    {
      Curved(slope, vs) ==> Falling(vs, slope.Of(), s) && NoneShort(vs, slope.Of(), m)
    }

    /** What holds whenever the loop looks for the next breakpoint. */
    ghost predicate Underway(slope: Derivatives, vs: seq<Var>, passed: seq<Break>, queue: seq<Break>, tsum: real,
                             dtm: real)
      reads x, l, u, g, nbd, iwhere, d, xcp, slope, slope.p, slope.c, slope.ws, slope.wy
    {
      && Along(vs, multiset(queue), tsum) && Passed(vs, passed, queue, tsum)
      && Separate(slope) && slope.Ring() && slope.Holds(Gradient(vs), Vec(d), Displaced(vs, tsum))
      && LeadsTo(Vec(d), slope.f1, slope.f2, dtm) && Descends(slope, vs, tsum, |passed|)
      && RaisedIfFlat(slope, vs, Vec(d))
      && (if passed == [] then slope.f1 <= 0.0 else passed[|passed| - 1].at == tsum)
    }

    /** If the model is definite and no curvature is raised, the search ends at s where it should, but for ties. */
    ghost predicate AtMinimum(slope: Derivatives, vs: seq<Var>, s: real)
      requires slope.Shapes() && |vs| == n + 1 && slope.n == n
    {
      Curved(slope, vs) ==> EndsAt(vs, slope.Of(), s)
    }

    /** The direction keeps some components of the first one. */
    lemma PartOfStart(vs: seq<Var>, rem: multiset<Break>, tsum: real)
      requires Along(vs, rem, tsum)
      ensures Shapes() && |vs| == n + 1 && IsPart(Vec(d), Started(vs, n))
    {
      forall k | 0 <= k < n ensures Vec(d)[k] == 0.0 || Vec(d)[k] == Started(vs, n)[k] {
        assert OnPath(vs[k + 1], k + 1, rem, tsum);
      }
    }

    lemma FlatIsFlat(slope: Derivatives, vs: seq<Var>, h: Vector)
      requires slope.Shapes() && |vs| == n + 1 && slope.n == n && |h| == n && IsFlat(slope, vs, h)
      ensures !NeverFlat(slope, vs)
    {
    }

    /** A variable whose breakpoint is ahead moves. */
    lemma SomethingMoves(vs: seq<Var>, rem: multiset<Break>, tsum: real)
      requires Along(vs, rem, tsum)
      ensures Vec(d) == Zeros(n) ==> rem == multiset{}
    {
      if rem != multiset{} {
        var b :| b in rem;
        assert IsBreak(vs, n, b) && OnPath(vs[b.variable], b.variable, rem, tsum);
        assert Vec(d)[b.variable - 1] != Zeros(n)[b.variable - 1];
      }
    }

    /** Where the search is, f1 and f2 are exact, or nothing moves and they are zero. */
    lemma ExactSlopes(slope: Derivatives, vs: seq<Var>, passed: seq<Break>, queue: seq<Break>, tsum: real, dtm: real)
      returns (f1: real, f2: real)
      requires Underway(slope, vs, passed, queue, tsum, dtm) && Curved(slope, vs)
      ensures Slopes(vs, slope.Of(), tsum, Vec(d), f1, f2) && LeadsTo(Vec(d), f1, f2, dtm)
      ensures passed == [] ==> f1 <= 0.0
      ensures f1 != 0.0 ==> Vec(d) != Zeros(n)
    {
      hide Falling, Definite, Along, IsSymmetric, SlopeAt, Bilinear, Trans, NeverFlat, NoneShort, Passed;
      f1, f2 := slope.f1, slope.f2;
      if Vec(d) == Zeros(n) {
        ZeroDirection(slope.Of(), Gradient(vs), Vec(d), Displaced(vs, tsum));
        f1, f2 := 0.0, 0.0;
      }
    }

    /** All variables are sane, and the ones ahead are not behind. */
    lemma AllSane(vs: seq<Var>, passed: seq<Break>, queue: seq<Break>, tsum: real)
      requires Along(vs, multiset(queue), tsum) && Passed(vs, passed, queue, tsum)
      ensures |vs| == n + 1 && tsum >= 0.0 && forall k :: 1 <= k < |vs| ==> vs[k].Sane()
      ensures forall k :: |passed| <= k < |Passing(vs)| ==> Passing(vs)[k] == queue[k - |passed|]
      ensures forall k :: |passed| <= k < |Passing(vs)| ==> Passing(vs)[k] in multiset(queue)
      ensures forall b :: b in multiset(queue) ==> tsum <= b.at
    {
      hide Passing;
      assert forall k :: |passed| <= k < |passed + queue| ==> (passed + queue)[k] == queue[k - |passed|];
    }

    /** At a tie, f1 is the slope with only the variables passed so far stopped. */
    lemma SlopeIsPartial(slope: Derivatives, vs: seq<Var>, passed: seq<Break>, queue: seq<Break>, tsum: real, f1: real,
                         f2: real)
      requires Along(vs, multiset(queue), tsum) && Passed(vs, passed, queue, tsum) && Separate(slope)
      requires Slopes(vs, slope.Of(), tsum, Vec(d), f1, f2) && queue != [] && queue[0].at == tsum
      ensures |passed| < |Passing(vs)| && Passing(vs)[|passed|] == queue[0]
      ensures f1 == PartialRise(vs, slope.Of(), |passed|)
    {
      hide Passing, SlopeAt, Bilinear, IsSymmetric, Along;
      DirectionIsStopped(vs, passed, queue, tsum);
      assert (passed + queue)[..|passed|] == passed;
      assert (passed + queue)[|passed|] == queue[0];
    }

    /** The next breakpoint is at the place of the one just passed. */
    lemma TiesHere(vs: seq<Var>, passed: seq<Break>, queue: seq<Break>, tsum: real)
      requires Passed(vs, passed, queue, tsum) && passed != [] && queue != []
      ensures Passing(vs)[|passed| - 1] == passed[|passed| - 1] && Passing(vs)[|passed|] == queue[0]
      ensures passed[|passed| - 1].at == queue[0].at <==> Ties(vs, |passed|)
    {
      hide Passing;
      assert (passed + queue)[|passed| - 1] == passed[|passed| - 1] && (passed + queue)[|passed|] == queue[0];
    }

    /** The least breakpoint ahead comes first. */
    lemma FirstAhead(vs: seq<Var>, passed: seq<Break>, queue: seq<Break>, tsum: real)
      requires Passed(vs, passed, queue, tsum) && queue != []
      ensures queue[0] in multiset(queue) && NoneBefore(multiset(queue), queue[0].at)
    {
      hide Passing, Found;
      PassedContents(vs, passed, queue, tsum);
      forall b | b in multiset(queue) ensures queue[0].at <= b.at {
        var j :| 0 <= j < |queue| && queue[j] == b;
        assert (passed + queue)[|passed|] == queue[0] && (passed + queue)[|passed| + j] == b;
      }
    }

    /** The search stops within a segment. */
    lemma StopsRight(slope: Derivatives, vs: seq<Var>, passed: seq<Break>, queue: seq<Break>, tsum: real, dtm: real)
      requires Underway(slope, vs, passed, queue, tsum, dtm) && NoneUntil(multiset(queue), tsum + dtm)
      ensures AtMinimum(slope, vs, tsum + Max(dtm, 0.0))
    {
      if Curved(slope, vs) {
        hide Falling, Definite, LeadsTo, OnPath, IsSymmetric, SlopeAt, Bilinear, Trans, NeverFlat, NoneShort, Passing;
        hide Straight, Slopes, PartialRise, Ties, NoneUntil, EndsAt, Rise;
        var f1, f2 := ExactSlopes(slope, vs, passed, queue, tsum, dtm);
        if f1 > 0.0 && queue != [] && queue[0].at == tsum {
          StopsAtTieHere(slope, vs, passed, queue, tsum, dtm, f1, f2);
        } else {
          StopsWithin(slope, vs, passed, queue, tsum, dtm, f1, f2);
        }
      }
    }

    /** The search stops at a tie. */
    lemma StopsAtTieHere(slope: Derivatives, vs: seq<Var>, passed: seq<Break>, queue: seq<Break>, tsum: real,
                         dtm: real, f1: real, f2: real)
      requires Underway(slope, vs, passed, queue, tsum, dtm) && Curved(slope, vs)
      requires NoneUntil(multiset(queue), tsum + dtm) && queue != [] && queue[0].at == tsum && f1 > 0.0 && passed != []
      requires Slopes(vs, slope.Of(), tsum, Vec(d), f1, f2)
      ensures EndsAt(vs, slope.Of(), tsum + Max(dtm, 0.0))
    {
      hide Falling, Definite, LeadsTo, OnPath, IsSymmetric, SlopeAt, Bilinear, Trans, NeverFlat, NoneShort, Passing;
      hide Slopes, PartialRise, Ties, EndsAt;
      AllSane(vs, passed, queue, tsum);
      SlopeIsPartial(slope, vs, passed, queue, tsum, f1, f2);
      TiesHere(vs, passed, queue, tsum);
      StopsAtTie(vs, slope.Of(), |passed|);
      assert queue[0] in multiset(queue);
      assert dtm < 0.0;
    }

    /** The search stops elsewhere. */
    lemma StopsWithin(slope: Derivatives, vs: seq<Var>, passed: seq<Break>, queue: seq<Break>, tsum: real,
                      dtm: real, f1: real, f2: real)
      requires Underway(slope, vs, passed, queue, tsum, dtm) && Curved(slope, vs)
      requires NoneUntil(multiset(queue), tsum + dtm) && (f1 > 0.0 && queue != [] ==> queue[0].at != tsum)
      requires Slopes(vs, slope.Of(), tsum, Vec(d), f1, f2) && LeadsTo(Vec(d), f1, f2, dtm)
      ensures EndsAt(vs, slope.Of(), tsum + Max(dtm, 0.0))
    {
      hide Falling, Definite, LeadsTo, OnPath, IsSymmetric, SlopeAt, Bilinear, Trans, NeverFlat, NoneShort, Passing;
      hide Straight, Slopes, PartialRise, Ties, EndsAt, Rise;
      var rem, s := multiset(queue), tsum + Max(dtm, 0.0);
      AllSane(vs, passed, queue, tsum);
      GoesStraight(vs, rem, tsum);
      SomethingMoves(vs, rem, tsum);
      if f1 > 0.0 && queue != [] {
        FirstAhead(vs, passed, queue, tsum);
      }
      StopsAtMinimum(vs, slope.Of(), rem, tsum, Vec(d), f1, f2, dtm);
      NeverShort(vs, slope.Of(), s, |passed|);
    }

    /** The next breakpoint comes before the stationary point. */
    lemma DescendsOn(slope: Derivatives, vs: seq<Var>, passed: seq<Break>, queue: seq<Break>, tsum: real, dtm: real)
      requires Underway(slope, vs, passed, queue, tsum, dtm) && queue != [] && queue[0].at <= tsum + dtm
      ensures Descends(slope, vs, queue[0].at, |passed| + 1)
    {
      if Curved(slope, vs) {
        hide Falling, Definite, LeadsTo, OnPath, IsSymmetric, SlopeAt, Bilinear, Trans, NeverFlat, NoneShort, Passing;
        hide Straight, Slopes, NoneBefore, Ties;
        var f1, f2 := ExactSlopes(slope, vs, passed, queue, tsum, dtm);
        AllSane(vs, passed, queue, tsum);
        FirstAhead(vs, passed, queue, tsum);
        GoesStraight(vs, multiset(queue), tsum);
        FallsOn(vs, slope.Of(), multiset(queue), tsum, Vec(d), f1, f2, dtm, queue[0].at);
        OneMoreNotShort(slope, vs, passed, queue, tsum, dtm, f1, f2);
      }
    }

    /** At a tie that the search passes, the slope with some of the variables stopped is not positive. */
    lemma OneMoreNotShort(slope: Derivatives, vs: seq<Var>, passed: seq<Break>, queue: seq<Break>, tsum: real,
                          dtm: real, f1: real, f2: real)
      requires Underway(slope, vs, passed, queue, tsum, dtm) && Curved(slope, vs) && queue != []
      requires queue[0].at <= tsum + dtm && Slopes(vs, slope.Of(), tsum, Vec(d), f1, f2)
      requires LeadsTo(Vec(d), f1, f2, dtm) && NoneShort(vs, slope.Of(), |passed|)
      ensures NoneShort(vs, slope.Of(), |passed| + 1)
    {
      hide Falling, Definite, OnPath, IsSymmetric, SlopeAt, Bilinear, Trans, NeverFlat, Passing, Slopes, PartialRise;
      if passed != [] {
        TiesHere(vs, passed, queue, tsum);
        if Ties(vs, |passed|) {
          SlopeIsPartial(slope, vs, passed, queue, tsum, f1, f2);
          CurvatureSign(vs, slope.Of(), tsum, Vec(d), f1, f2);
          if Vec(d) != Zeros(n) {
            SignOfQuotient(dtm, f1, f2);
          }
        }
      }
    }

    /** How far a variable has moved when it meets its bound. */
    lemma ReachesBound(vs: seq<Var>, rem: multiset<Break>, tsum0: real, tsum: real, d0: Vector, ibp: int)
      requires Straight(vs, rem, tsum0, d0) && tsum0 <= tsum && NoneBefore(rem, tsum) && |vs| == n + 1
      requires IsBreak(vs, n, Break(tsum, ibp)) && vs[ibp].Sane() && tsum >= 0.0 && d0[ibp - 1] == vs[ibp].Direction()
      ensures vs[ibp].Bound() - vs[ibp].x == Displaced(vs, tsum0)[ibp - 1] + Times(tsum - tsum0, d0[ibp - 1])
      ensures d0[ibp - 1] == -Gradient(vs)[ibp - 1]
    {
      PathIsPiecewiseLinear(vs[ibp], tsum);
      assert Displaced(vs, tsum)[ibp - 1] == vs[ibp].Bound() - vs[ibp].x;
      ScaledIs(tsum - tsum0, d0, ibp - 1);
    }

    /** Looks for the next breakpoint and passes it, unless the search stops before it. */
    method NextRound(iter: nat, nleft: nat, nbreak: nat, ibkmin: nat, bkmin: real, tsum0: real, dtm: real,
                     slope: Derivatives, ghost vs: seq<Var>, ghost passed0: seq<Break>, ghost queue0: seq<Break>)
      returns (stop: bool, tsum: real, ibp: int, dibp: real, zibp: real, ghost passed: seq<Break>,
               ghost queue: seq<Break>)
      requires Pending(iter, nleft, nbreak, ibkmin, bkmin, queue0) && nleft > 0
      requires Underway(slope, vs, passed0, queue0, tsum0, dtm)
      modifies d, xcp, iwhere, t, iorder
      ensures |vs| == n + 1 && Separate(slope) && slope.Ring()
      ensures Along(vs, multiset(queue), tsum) && Passed(vs, passed, queue, tsum)
      ensures slope.Holds(Gradient(vs), old(Vec(d)), Displaced(vs, tsum0)) && RaisedIfFlat(slope, vs, old(Vec(d)))
      ensures Products(slope, old(Vec(d)), Displaced(vs, tsum0))
      ensures stop ==>
        && tsum == tsum0 && Vec(d) == old(Vec(d)) && AtMinimum(slope, vs, tsum + Max(dtm, 0.0))
        && forall b :: b in multiset(queue) ==> tsum + Max(dtm, 0.0) <= b.at
      ensures !stop ==>
        && Pending(iter + 1, nleft - 1, nbreak, ibkmin, bkmin, queue) && Descends(slope, vs, tsum, |passed|)
        && passed != [] && passed[|passed| - 1].at == tsum
      ensures !stop ==>
        && 1 <= ibp <= n && dibp == old(Vec(d))[ibp - 1] == -Gradient(vs)[ibp - 1] && dibp != 0.0
        && zibp == Displaced(vs, tsum0)[ibp - 1] + Times(tsum - tsum0, dibp)
        && Vec(d) == old(Vec(d))[ibp - 1 := 0.0]
        && Displaced(vs, tsum) == Plus(Displaced(vs, tsum0), Scaled(tsum - tsum0, old(Vec(d))))
    {
      hide Falling, Definite, LeadsTo, OnPath, IsSymmetric, SlopeAt, Bilinear, Trans, Pending, EndsAt, NoneShort;
      hide Displaced, Gradient, Heading, Times, Plus, Scaled, Passing, AtMinimum, Straight, NeverFlat, Descends;
      GoesStraight(vs, multiset(queue0), tsum0);
      ghost var d0 := Vec(d);
      PendingSize(iter, nleft, nbreak, ibkmin, bkmin, queue0);
      FirstAhead(vs, passed0, queue0, tsum0);
      if tsum0 + dtm < queue0[0].at {
        BoundBefore(multiset(queue0), queue0[0].at, tsum0 + dtm);
        StopsRight(slope, vs, passed0, queue0, tsum0, dtm);
      } else {
        DescendsOn(slope, vs, passed0, queue0, tsum0, dtm);
      }
      passed, queue := passed0, queue0;
      stop, tsum, ibp, dibp, zibp := Pass(iter, nleft, nbreak, ibkmin, bkmin, tsum0, dtm, vs, queue0);
      if !stop {
        PassOne(vs, passed, queue, tsum0, tsum);
        passed, queue := passed + [queue[0]], queue[1..];
        ReachesBound(vs, multiset(queue0), tsum0, tsum, d0, ibp);
        StraightTo(vs, multiset(queue0), tsum0, d0, tsum);
      }
    }

    lemma StraightTo(vs: seq<Var>, rem: multiset<Break>, s: real, d: Vector, r: real)
      requires Straight(vs, rem, s, d) && s <= r && NoneBefore(rem, r)
      ensures Displaced(vs, r) == Plus(Displaced(vs, s), Scaled(r - s, d))
    {
    }

    /** p and c are the products with d and z. */
    ghost predicate Products(slope: Derivatives, dv: Vector, zv: Vector)
      reads slope.p, slope.c
    {
      && slope.Shapes() && |dv| == |zv| == slope.n
      && Vec(slope.p) == Trans(slope.Of(), dv) && Vec(slope.c) == Trans(slope.Of(), zv)
    }

    /** When every breakpoint is passed and the others stand still, nothing moves. */
    lemma NothingMoves(vs: seq<Var>, tsum: real)
      requires Along(vs, multiset{}, tsum) && OthersStill(vs, n)
      ensures Vec(d) == Zeros(n)
    {
      forall k | 0 <= k < n ensures Vec(d)[k] == Zeros(n)[k] {
        assert OnPath(vs[k + 1], k + 1, multiset{}, tsum);
      }
    }

    lemma AllMeet(vs: seq<Var>)
      requires |vs| == n + 1 && |Found(vs, n)| == n
      ensures OthersStill(vs, n)
    {
      FoundAll(vs, n);
    }

    /** When nothing moves any more, the path does not rise either. */
    lemma RestsAtMinimum(slope: Derivatives, vs: seq<Var>, passed: seq<Break>, tsum: real)
      requires Along(vs, multiset{}, tsum) && OthersStill(vs, n) && Separate(slope)
      requires Passed(vs, passed, [], tsum) && Descends(slope, vs, tsum, |passed|)
      ensures AtMinimum(slope, vs, tsum)
    {
      if Curved(slope, vs) {
        hide OnPath, Falling, SlopeAt, Bilinear, IsSymmetric, Definite, NeverFlat, NoneShort, EndsAt, Passing;
        GoesStraight(vs, multiset{}, tsum);
        NothingMoves(vs, tsum);
        assert NoneUntil(multiset{}, tsum);
        ZeroDirection(slope.Of(), Gradient(vs), Zeros(n), Displaced(vs, tsum));
        assert Passing(vs) == passed;
        assert multiset(Passing(vs)[|passed|..]) == multiset{};
        AllSane(vs, passed, [], tsum);
        NeverShort(vs, slope.Of(), tsum, |passed|);
      }
    }

    /** The new direction is as flat as that, or zero. */
    lemma StillRaised(slope: Derivatives, vs: seq<Var>, raised: bool, d0: Vector)
      requires slope.Shapes() && |vs| == n + 1 && slope.n == n && Shapes()
      requires slope.f2org == Times(slope.theta, Dot(Started(vs, n), Started(vs, n)))
      requires IsPart(Vec(d), Started(vs, n)) && |d0| == n && d0 != Zeros(n)
      requires raised ==> !NeverFlat(slope, vs) || d0 == Zeros(n)
      ensures raised || Bilinear(slope.Of(), Vec(d), Vec(d)) < slope.Least() ==>
        !NeverFlat(slope, vs) || Vec(d) == Zeros(n)
    {
      hide Bilinear, IsSymmetric, Dot, NeverFlat, IsPart, Zeros;
      if Vec(d) != Zeros(n) && Bilinear(slope.Of(), Vec(d), Vec(d)) < slope.Least() {
        FlatIsFlat(slope, vs, Vec(d));
      }
    }

    lemma NotZeros(v: Vector, k: int)
      requires 0 <= k < |v| && v[k] != 0.0
      ensures v != Zeros(|v|)
    {
    }

    /** The slopes after a breakpoint, and the distance to the next stationary point. */
    method Prolong(nleft: nat, bnded: bool, dt: real, ibp: int, dibp: real, zibp: real, fails: bool, undefined: real,
                   slope: Derivatives, ghost vs: seq<Var>, ghost passed: seq<Break>, ghost queue: seq<Break>,
                   ghost tsum: real, ghost d0: Vector, ghost z0: Vector)
      returns (ok: bool, dtm: real)
      requires Separate(slope) && slope.Ring() && Along(vs, multiset(queue), tsum) && Passed(vs, passed, queue, tsum)
      requires slope.Holds(Gradient(vs), d0, z0) && 1 <= ibp <= n && dibp == d0[ibp - 1] == -Gradient(vs)[ibp - 1]
      requires zibp == z0[ibp - 1] + Times(dt, dibp) && Vec(d) == d0[ibp - 1 := 0.0] && dibp != 0.0
      requires Displaced(vs, tsum) == Plus(z0, Scaled(dt, d0)) && RaisedIfFlat(slope, vs, d0)
      requires Descends(slope, vs, tsum, |passed|) && passed != [] && passed[|passed| - 1].at == tsum
      requires nleft == 0 && bnded ==> queue == [] && OthersStill(vs, n)
      modifies slope`f1, slope`f2, slope`clamped, slope.p, slope.c, slope.wbp, slope.v
      ensures ok ==> Underway(slope, vs, passed, queue, tsum, dtm)
      ensures !ok ==> fails
    {
      hide Falling, Definite, IsSymmetric, SlopeAt, Bilinear, Trans, Displaced, Gradient, Times, Plus, Scaled, Passed;
      hide Zeros, OnPath, NeverFlat, IsPart, Dot, Derivatives.Least, Along, NoneShort;
      PartOfStart(vs, multiset(queue), tsum);
      NotZeros(d0, ibp - 1);
      StillRaised(slope, vs, slope.clamped, d0);
      ok := slope.Proceed(dt, ibp, dibp, zibp, fails, Gradient(vs), d0, z0);
      if nleft == 0 && bnded {
        NothingMoves(vs, tsum);
        ZeroDirection(slope.Of(), Gradient(vs), Vec(d), Displaced(vs, tsum));
        slope.f1, slope.f2, dtm := 0.0, 0.0, 0.0;
      } else {
        dtm := slope.Distance(undefined);
      }
    }

    /** The search ends behind the last breakpoint. */
    lemma StopsAtEnd(slope: Derivatives, vs: seq<Var>, passed: seq<Break>, tsum: real, dtm: real)
      requires Underway(slope, vs, passed, [], tsum, dtm)
      ensures Separate(slope) && Along(vs, multiset([]), tsum) && Passed(vs, passed, [], tsum)
      ensures Products(slope, Vec(d), Displaced(vs, tsum)) && AtMinimum(slope, vs, tsum + Max(dtm, 0.0))
    {
      hide Falling, Definite, LeadsTo, OnPath, IsSymmetric, SlopeAt, Bilinear, Trans, Passed, Displaced, NoneShort;
      StopsRight(slope, vs, passed, [], tsum, dtm);
    }

    /**
     * The main loop of cauchy; singular tells whether a solve with the middle matrix fails. dv and zv are
     * what p and c are the products with.
     */
    method Walk(nbreak: nat, ibkmin: nat, bkmin: real, bnded: bool, dtm0: real, singular: nat -> bool,
                undefined: nat -> real, slope: Derivatives, ghost vs: seq<Var>)
      returns (end: End, dtm: real, tsum: real, ghost passed: seq<Break>, ghost queue: seq<Break>,
               ghost dv: Vector, ghost zv: Vector)
      requires |vs| == n + 1 && 1 <= nbreak && Pending(1, nbreak, nbreak, ibkmin, bkmin, Passing(vs))
      requires Underway(slope, vs, [], Passing(vs), 0.0, dtm0) && |Found(vs, n)| == nbreak
      requires Shapes() && Separate(slope) && (bnded <==> OthersStill(vs, n))
      modifies d, xcp, iwhere, t, iorder, slope`f1, slope`f2, slope`clamped, slope.p, slope.c, slope.wbp, slope.v
      ensures end == Singular ==> exists k :: singular(k)
      ensures end != Singular ==>
        Along(vs, multiset(queue), tsum) && Passed(vs, passed, queue, tsum) && Products(slope, dv, zv)
      ensures end == AllFixed ==>
        && queue == [] && nbreak == n && AtMinimum(slope, vs, tsum)
        && Displaced(vs, tsum) == Plus(zv, Scaled(dtm, dv))
      ensures end == Inside ==>
        && (forall b :: b in multiset(queue) ==> tsum + Max(dtm, 0.0) <= b.at)
        && AtMinimum(slope, vs, tsum + Max(dtm, 0.0)) && dv == Vec(d) && zv == Displaced(vs, tsum)
    {
      hide Falling, Definite, LeadsTo, OnPath, IsSymmetric, SlopeAt, Bilinear, Trans, Pending, EndsAt, NoneShort;
      hide Displaced, Gradient, Heading, Times, Plus, Scaled, Passed, AtMinimum, Straight, Zeros, Along, OthersStill;
      hide Underway, Descends, Products, Derivatives.Holds, RaisedIfFlat, Passing;
      passed, queue := [], Passing(vs);
      var nleft, iter, nint := nbreak, 1, 1;
      dtm, tsum := dtm0, 0.0;
      while true
        invariant 1 <= nleft && 1 <= iter && Pending(iter, nleft, nbreak, ibkmin, bkmin, queue)
        invariant Underway(slope, vs, passed, queue, tsum, dtm)
        decreases nleft
      {
        dv, zv := Vec(d), Displaced(vs, tsum);
        var stop, tj, ibp, dibp, zibp;
        stop, tj, ibp, dibp, zibp, passed, queue :=
          NextRound(iter, nleft, nbreak, ibkmin, bkmin, tsum, dtm, slope, vs, passed, queue);
        if stop {
          return Inside, dtm, tsum, passed, queue, dv, zv;
        }
        var dt := tj - tsum;
        tsum := tj;
        nleft := nleft - 1;
        iter := iter + 1;
        PendingSize(iter, nleft, nbreak, ibkmin, bkmin, queue);
        if nleft == 0 && nbreak == n {
          AllMeet(vs);
          RestsAtMinimum(slope, vs, passed, tsum);
          return AllFixed, dt, tsum, passed, queue, dv, zv;
        }
        nint := nint + 1;
        var ok;
        ok, dtm := Prolong(nleft, bnded, dt, ibp, dibp, zibp, singular(nint), undefined(nint), slope, vs, passed,
                           queue, tsum, dv, zv);
        if !ok {
          return Singular, dtm, tsum, passed, queue, dv, zv;
        }
        if nleft == 0 {
          StopsAtEnd(slope, vs, passed, tsum, dtm);
          return Inside, dtm, tsum, passed, queue, Vec(d), Displaced(vs, tsum);
        }
      }
    }

    lemma NonePassed(vs: seq<Var>)
      requires |vs| == n + 1
      ensures Passed(vs, [], Passing(vs), 0.0) && multiset(Passing(vs)) == multiset(Found(vs, n))
    {
      hide Order, Found;
      OrderAscends(Found(vs, n));
    }

    /** What a search leaves: the point xcp of the path at s, and the first breakpoints, which it has passed. */
    ghost predicate Arrived(vs: seq<Var>, s: real, passed: seq<Break>)
      reads x, l, u, g, nbd, xcp
    {
      && Given(vs) && s >= 0.0 && AtPath(vs, s)
      && passed <= Passing(vs) && Ascending(passed)
      && (forall i :: 0 <= i < |passed| ==> IsBreak(vs, n, passed[i]) && passed[i].at <= s)
      && (forall i, j :: 0 <= i < j < |passed| ==> passed[i].variable != passed[j].variable)
    }

    /** If nothing is left to move, the variables are where they should be. */
    lemma AtRest(vs: seq<Var>, rem: multiset<Break>, tsum: real)
      requires Along(vs, rem, tsum) && forall i :: 1 <= i <= n ==> tsum == 0.0 || d[i] == 0.0
      ensures AtPath(vs, tsum) && StatusRight(vs)
    {
      hide Var.Path;
      forall k | 1 <= k <= n
        ensures xcp[k] == vs[k].Path(tsum)
        ensures iwhere[k] == 1 ==> vs[k].HasLower() && xcp[k] == vs[k].l
        ensures iwhere[k] == 2 ==> vs[k].HasUpper() && xcp[k] == vs[k].u
      {
        assert OnPath(vs[k], k, rem, tsum);
        PathReached(vs[k], k, rem, tsum, tsum, xcp[k], d[k], iwhere[k]);
      }
    }

    /** When all variables have met their bounds, none has a direction any more. */
    lemma AllAtRest(vs: seq<Var>, tsum: real)
      requires Along(vs, multiset{}, tsum) && |Found(vs, n)| == n
      ensures AtPath(vs, tsum) && StatusRight(vs)
    {
      FoundAll(vs, n);
      forall i | 1 <= i <= n ensures d[i] == 0.0 {
        assert OnPath(vs[i], i, multiset{}, tsum);
      }
      AtRest(vs, multiset{}, tsum);
    }

    lemma StartsAlong(vs: seq<Var>, nbreak: nat, nfree: int)
      requires Given(vs) && Listed(vs, n, nbreak, nfree) && forall i :: 1 <= i <= n ==> xcp[i] == x[i]
      ensures Along(vs, multiset(Found(vs, n)), 0.0) && |Found(vs, n)| == nbreak
    {
      var rem := multiset(Found(vs, n));
      assert |Breaks(t, iorder, nbreak)| == nbreak;
      forall b | b in rem ensures IsBreak(vs, n, b) && rem[b] == 1 && 0.0 <= b.at {
        FoundExactly(vs, n, b);
        PathIsPiecewiseLinear(vs[b.variable], 0.0);
      }
      forall i | 1 <= i <= n ensures OnPath(vs[i], i, rem, 0.0) {
        FoundExactly(vs, n, Break(vs[i].MeetsAt(), i));
      }
    }

    lemma PassedOnce(vs: seq<Var>, passed: seq<Break>, queue: seq<Break>, tsum: real)
      requires Passed(vs, passed, queue, tsum)
      ensures passed <= Passing(vs) && Ascending(passed)
      ensures forall i :: 0 <= i < |passed| ==> IsBreak(vs, n, passed[i])
      ensures forall i, j :: 0 <= i < j < |passed| ==> passed[i].variable != passed[j].variable
    {
      hide Passing, Found;
      PassedContents(vs, passed, queue, tsum);
      assert forall i :: 0 <= i < |passed| ==> (passed + queue)[i] == passed[i];
      forall i | 0 <= i < |passed| ensures IsBreak(vs, n, passed[i]) {
        assert passed[i] in multiset(passed);
        FoundExactly(vs, n, passed[i]);
      }
      forall i, j | 0 <= i < j < |passed| ensures passed[i].variable != passed[j].variable {
        if passed[i] == passed[j] {
          TwiceInMultiset(passed, i, j);
          FoundExactly(vs, n, passed[i]);
        }
      }
    }

    method CopyX()
      requires Shapes()
      modifies xcp
      ensures forall i :: 1 <= i <= n ==> xcp[i] == x[i]
    {
      var i := 1;
      while i <= n
        invariant 1 <= i <= n + 1 && forall k :: 1 <= k < i ==> xcp[k] == x[k]
      {
        xcp[i] := x[i];
        i := i + 1;
      }
    }

    /**
     * cauchy. If no solve fails (info == 0), xcp is a point of the path. If there was anything to search,
     * c is left as the product of W with the way to it, and the search has ended there as EndsAt says.
     */
    method Cauchy(sbgnrm: real, singular: nat -> bool, undefined: nat -> real, slope: Derivatives, ghost vs: seq<Var>)
      returns (info: nat, searched: bool, ghost s: real, ghost passed: seq<Break>)
      requires Given(vs) && forall i :: 1 <= i <= n ==> iwhere[i] == vs[i].status
      requires Separate(slope) && slope.Ring()
      modifies d, xcp, iwhere, t, iorder, slope`f1, slope`f2, slope`f2org, slope`clamped
      modifies slope.p, slope.c, slope.wbp, slope.v
      ensures (forall k :: !singular(k)) ==> info == 0
      ensures searched <==> sbgnrm > 0.0 && AnyMoves(vs)
      ensures info == 0 ==> Arrived(vs, s, passed)
      ensures info == 0 && sbgnrm > 0.0 ==> StatusRight(vs)
      ensures info == 0 && searched ==>
        Vec(slope.c) == Trans(slope.Of(), Displaced(vs, s)) && AtMinimum(slope, vs, s)
    {
      hide Along, Passed, Listed, LeastAt, AtPath, StatusRight, AtMinimum, Trans, OthersStill;
      info, searched, s, passed := 0, false, 0.0, [];
      if sbgnrm <= 0.0 {
        CopyX();
        StaysAtStart(vs);
        return;
      }
      var nbreak, nfree, ibkmin, bkmin, bnded := Prepare(slope, vs);
      slope.ScaleHalf(Started(vs, n));
      CopyX();
      StartsAlong(vs, nbreak, nfree);
      info, searched, s, passed := Search(nbreak, nfree, ibkmin, bkmin, bnded, singular, undefined, slope, vs);
    }

    lemma StaysAtStart(vs: seq<Var>)
      requires Given(vs) && forall i :: 1 <= i <= n ==> xcp[i] == x[i]
      ensures AtPath(vs, 0.0)
    {
    }

    static ghost predicate AnyMoves(vs: seq<Var>) {
      exists i :: 1 <= i < |vs| && vs[i].Moves()
    }

    /** There is nothing to search if no variable has a breakpoint or moves without one. */
    lemma {:induction false} NothingToSearch(vs: seq<Var>, k: nat)
      requires k < |vs| == n + 1
      ensures Found(vs, k) == [] && MoversMeet(vs, k) <==> forall i :: 1 <= i <= k ==> !vs[i].Moves()
    {
      if k > 0 {
        NothingToSearch(vs, k - 1);
      }
    }

    /** At the beginning the slope is minus the square of the direction. */
    lemma FirstSlope(vs: seq<Var>)
      requires |vs| == n + 1
      ensures Dot(Gradient(vs), Started(vs, n)) == -Dot(Started(vs, n), Started(vs, n)) <= 0.0
    {
      hide Times;
      DotOpposite(Gradient(vs), Started(vs, n), n);
      SelfDotNotNegative(Started(vs, n), n);
    }

    /** The search begins. */
    lemma BeginsUnderway(slope: Derivatives, vs: seq<Var>, dtm: real)
      requires |vs| == n + 1 && Separate(slope) && slope.Ring() && Along(vs, multiset(Found(vs, n)), 0.0)
      requires RaisedIfFlat(slope, vs, Vec(d))
      requires slope.Holds(Gradient(vs), Started(vs, n), Zeros(n)) && LeadsTo(Started(vs, n), slope.f1, slope.f2, dtm)
      requires Vec(d) == Started(vs, n) && slope.f1 <= 0.0
      ensures Underway(slope, vs, [], Passing(vs), 0.0, dtm)
    {
      hide Along, Definite, SlopeAt, Bilinear, Trans, IsSymmetric, LeadsTo, Passed, Passing, NeverFlat;
      NonePassed(vs);
      assert Displaced(vs, 0.0) == Zeros(n) by {
        NotMovedYet(vs);
      }
    }

    lemma NotMovedYet(vs: seq<Var>)
      requires |vs| == n + 1 && Along(vs, multiset(Found(vs, n)), 0.0)
      ensures Displaced(vs, 0.0) == Zeros(n)
    {
      forall k | 0 <= k < n ensures Displaced(vs, 0.0)[k] == Zeros(n)[k] {
        PathWithinBounds(vs[k + 1], 0.0);
      }
    }

    /** c is the product with the way to s, and the search ends there as it should. */
    ghost predicate EndsRight(slope: Derivatives, vs: seq<Var>, s: real)
      reads slope.c
    {
      && Separate(slope) && |vs| == n + 1
      && Vec(slope.c) == Trans(slope.Of(), Displaced(vs, s)) && AtMinimum(slope, vs, s)
    }

    /** If nothing moves, the variables stay where they are. */
    lemma StaysWithoutSearch(vs: seq<Var>)
      requires Given(vs) && Along(vs, multiset(Found(vs, n)), 0.0)
      ensures Arrived(vs, 0.0, []) && StatusRight(vs)
    {
      hide Passing, Found, StatusRight, AtPath;
      AtRest(vs, multiset(Found(vs, n)), 0.0);
    }

    /** The slopes at the start, and the distance to the first stationary point. */
    method BeginSearch(fails: bool, undefined: real, slope: Derivatives, ghost vs: seq<Var>)
      returns (ok: bool, dtm: real)
      requires Given(vs) && Along(vs, multiset(Found(vs, n)), 0.0) && Vec(d) == Started(vs, n)
      requires Separate(slope) && slope.Ring() && Vec(slope.p) == Trans(slope.Of(), Started(vs, n))
      requires slope.f1 == -Dot(Started(vs, n), Started(vs, n))
      modifies slope`f2, slope`f2org, slope`clamped, slope.c, slope.v
      ensures ok ==> Underway(slope, vs, [], Passing(vs), 0.0, dtm)
      ensures !ok ==> fails
    {
      hide Along, Passed, Trans, Dot, SlopeAt, Bilinear, IsSymmetric, Underway, Found, NeverFlat, Zeros;
      FirstSlope(vs);
      ok := slope.Begin(fails, Gradient(vs), Started(vs, n));
      dtm := 0.0;
      if ok {
        dtm := slope.Distance(undefined);
        BeginsUnderway(slope, vs, dtm);
      }
    }

    /** cauchy after the first loop. */
    method Search(nbreak: nat, nfree: int, ibkmin: nat, bkmin: real, bnded: bool, singular: nat -> bool,
                  undefined: nat -> real, slope: Derivatives, ghost vs: seq<Var>)
      returns (info: nat, searched: bool, ghost s: real, ghost passed: seq<Break>)
      requires Given(vs) && Listed(vs, n, nbreak, nfree) && LeastAt(nbreak, ibkmin, bkmin)
      requires Along(vs, multiset(Found(vs, n)), 0.0) && |Found(vs, n)| == nbreak
      requires Separate(slope) && slope.Ring() && Vec(slope.p) == Trans(slope.Of(), Started(vs, n))
      requires slope.f1 == -Dot(Started(vs, n), Started(vs, n)) && (bnded <==> OthersStill(vs, n))
      modifies d, xcp, iwhere, t, iorder, slope`f1, slope`f2, slope`f2org, slope`clamped
      modifies slope.p, slope.c, slope.wbp, slope.v
      ensures (forall k :: !singular(k)) ==> info == 0
      ensures searched <==> AnyMoves(vs)
      ensures info == 0 ==> Arrived(vs, s, passed) && StatusRight(vs) && (searched ==> EndsRight(slope, vs, s))
    {
      hide Along, Passed, AtPath, StatusRight, Trans, AtMinimum, Dot, SlopeAt, Bilinear, IsSymmetric, OthersStill;
      hide Zeros, Displaced, Found, Arrived, NeverFlat, Underway, LeastAt, Listed, Given, EndsRight, AnyMoves;
      hide Descends, RaisedIfFlat, Passing, Derivatives.Ring, Derivatives.Holds, Started, Breaks;
      info, searched, s, passed := 0, false, 0.0, [];
      ListedFacts(vs, nbreak, nfree);
      if nbreak == 0 && nfree == n + 1 {
        StaysWithoutSearch(vs);
        return;
      }
      searched := true;
      var ok, dtm := BeginSearch(singular(1), undefined(1), slope, vs);
      if ok {
        info, s, passed := Continue(nbreak, ibkmin, bkmin, bnded, dtm, singular, undefined, slope, vs);
      } else {
        info := 1;
      }
    }

    lemma ListedFacts(vs: seq<Var>, nbreak: nat, nfree: int)
      requires Given(vs) && Listed(vs, n, nbreak, nfree)
      ensures Vec(d) == Started(vs, n) && nbreak <= n && Breaks(t, iorder, nbreak) == Found(vs, n)
      ensures |Found(vs, n)| == nbreak
      ensures nbreak == 0 && nfree == n + 1 <==> !AnyMoves(vs)
    {
      NothingToSearch(vs, n);
    }

    /** The walk and the last steps. */
    method Continue(nbreak: nat, ibkmin: nat, bkmin: real, bnded: bool, dtm0: real, singular: nat -> bool,
                    undefined: nat -> real, slope: Derivatives, ghost vs: seq<Var>)
      returns (info: nat, ghost s: real, ghost passed: seq<Break>)
      requires Given(vs) && Underway(slope, vs, [], Passing(vs), 0.0, dtm0) && |Found(vs, n)| == nbreak
      requires nbreak <= n && Breaks(t, iorder, nbreak) == Found(vs, n)
      requires LeastAt(nbreak, ibkmin, bkmin) && (bnded <==> OthersStill(vs, n))
      modifies d, xcp, iwhere, t, iorder, slope`f1, slope`f2, slope`clamped, slope.p, slope.c, slope.wbp, slope.v
      ensures (forall k :: !singular(k)) ==> info == 0
      ensures info == 0 ==> Arrived(vs, s, passed) && StatusRight(vs) && EndsRight(slope, vs, s)
    {
      hide Along, Passed, AtPath, StatusRight, Trans, AtMinimum, Dot, SlopeAt, Bilinear, IsSymmetric, OthersStill;
      hide Zeros, Displaced, Gradient, Plus, Scaled, Definite, Falling, LeadsTo, NeverFlat, NoneShort, Found;
      var end, dtm, tsum := Inside, dtm0, 0.0;
      ghost var queue, dv, zv := Passing(vs), Vec(d), Displaced(vs, 0.0);
      passed := [];
      if nbreak > 0 {
        end, dtm, tsum, passed, queue, dv, zv :=
          Walk(nbreak, ibkmin, bkmin, bnded, dtm0, singular, undefined, slope, vs);
      } else {
        StopsAtEnd(slope, vs, passed, tsum, dtm);
      }
      info, s := if end == Singular then 1 else 0, tsum;
      if end != Singular {
        assert AtMinimum(slope, vs, if end == Inside then tsum + Max(dtm, 0.0) else tsum);
        hide Underway, Given;
        s := Complete(end, dtm, tsum, slope, vs, passed, queue, dv, zv);
      }
    }

    /** Moves the variables that are still free to their place at the end of the search. */
    method Settle(end: End, dtm: real, tsum: real, ghost vs: seq<Var>, ghost passed: seq<Break>,
                  ghost queue: seq<Break>)
      requires Given(vs) && end != Singular && Along(vs, multiset(queue), tsum) && Passed(vs, passed, queue, tsum)
      requires end == AllFixed ==> queue == [] && |Found(vs, n)| == n
      requires end == Inside ==> dtm >= 0.0 && forall b :: b in multiset(queue) ==> tsum + dtm <= b.at
      modifies xcp
      ensures Arrived(vs, if end == Inside then tsum + dtm else tsum, passed) && StatusRight(vs)
    {
      hide AtPath, StatusRight;
      if end == Inside {
        MoveFree(tsum + dtm, tsum, vs, multiset(queue));
      } else {
        AllAtRest(vs, tsum);
      }
      PassedOnce(vs, passed, queue, tsum);
    }

    /** The last steps of cauchy. */
    method Complete(end: End, dtm0: real, tsum: real, slope: Derivatives, ghost vs: seq<Var>,
                    ghost passed: seq<Break>, ghost queue: seq<Break>, ghost dv: Vector, ghost zv: Vector)
      returns (ghost s: real)
      requires Given(vs) && Separate(slope) && end != Singular
      requires Along(vs, multiset(queue), tsum) && Passed(vs, passed, queue, tsum) && Products(slope, dv, zv)
      requires end == AllFixed ==>
        && queue == [] && |Found(vs, n)| == n && Displaced(vs, tsum) == Plus(zv, Scaled(dtm0, dv))
      requires end == Inside ==>
        && (forall b :: b in multiset(queue) ==> tsum + Max(dtm0, 0.0) <= b.at)
        && dv == Vec(d) && zv == Displaced(vs, tsum)
      modifies xcp, slope.c
      ensures s == if end == Inside then tsum + Max(dtm0, 0.0) else tsum
      ensures Arrived(vs, s, passed) && StatusRight(vs) && Vec(slope.c) == Trans(slope.Of(), Displaced(vs, s))
    {
      hide AtPath, StatusRight, Trans, Displaced, Plus, Scaled, Straight, Arrived, Passed, Along, Found;
      var dtm := dtm0;
      s := tsum;
      if end == Inside {
        if dtm <= 0.0 {
          dtm := 0.0;
        }
        s := tsum + dtm;
        GoesStraight(vs, multiset(queue), tsum);
        StraightTo(vs, multiset(queue), tsum, dv, s);
      }
      slope.Conclude(dtm, dv, zv);
      Settle(end, dtm, tsum, vs, passed, queue);
    }
  }

  lemma {:induction false} DotOpposite(g: Vector, d: Vector, k: nat)
    requires k <= |g| == |d| && forall i :: 0 <= i < |d| ==> d[i] == 0.0 || d[i] == -g[i]
    ensures DotTo(g, d, k) == -DotTo(d, d, k)
  {
    if k > 0 {
      DotOpposite(g, d, k - 1);
      assert g[k - 1] * d[k - 1] == -(d[k - 1] * d[k - 1]);
    }
  }

  /**
   * active: moves x to the nearest point of the box and marks the variables without bounds and
   * those whose bounds leave no choice. After that every variable is sane.
   */
  method Active(n: nat, l: array<real>, u: array<real>, nbd: array<int>, x: array<real>, iwhere: array<int>)
    returns (prjctd: bool, cnstnd: bool, boxed: bool)
    requires x.Length == l.Length == u.Length == nbd.Length == iwhere.Length == n + 1
    requires x != l && x != u && iwhere != nbd
    requires forall i :: 1 <= i <= n ==> 0 <= nbd[i] <= 3 && (nbd[i] == 2 ==> l[i] <= u[i])
    modifies x, iwhere
    ensures forall i :: 1 <= i <= n ==> x[i] == Nearest(nbd[i], l[i], u[i], old(x[i]))
    ensures forall i :: 1 <= i <= n ==> forall g: real :: Var(x[i], l[i], u[i], nbd[i], g, iwhere[i]).Sane()
    ensures forall i :: 1 <= i <= n ==> iwhere[i] == -1 || iwhere[i] == 0 || iwhere[i] == 3
    ensures prjctd <==> exists i :: 1 <= i <= n && x[i] != old(x[i])
    ensures cnstnd <==> exists i :: 1 <= i <= n && nbd[i] != 0
    ensures boxed <==> forall i :: 1 <= i <= n ==> nbd[i] == 2
  {
    prjctd := Project(n, l, u, nbd, x);
    forall i, g: real | 1 <= i <= n
      ensures Var(x[i], l[i], u[i], nbd[i], g, InitialStatus(nbd[i], l[i], u[i])).Sane()
    {
      ClippedIsSane(Var(old(x[i]), l[i], u[i], nbd[i], g, 0));
    }
    cnstnd, boxed := MarkStatus(n, l, u, nbd, iwhere);
  }

  /** The second loop of active. */
  method MarkStatus(n: nat, l: array<real>, u: array<real>, nbd: array<int>, iwhere: array<int>)
    returns (cnstnd: bool, boxed: bool)
    requires l.Length == u.Length == nbd.Length == iwhere.Length == n + 1 && iwhere != nbd
    modifies iwhere
    ensures forall i :: 1 <= i <= n ==> iwhere[i] == InitialStatus(nbd[i], l[i], u[i])
    ensures cnstnd <==> exists i :: 1 <= i <= n && nbd[i] != 0
    ensures boxed <==> forall i :: 1 <= i <= n ==> nbd[i] == 2
  {
    cnstnd := false;
    boxed := true;
    var i := 1;
    while i <= n
      invariant 1 <= i <= n + 1
      invariant cnstnd <==> exists k :: 1 <= k < i && nbd[k] != 0
      invariant boxed <==> forall k :: 1 <= k < i ==> nbd[k] == 2
      invariant forall k :: 1 <= k < i ==> iwhere[k] == InitialStatus(nbd[k], l[k], u[k])
    {
      if nbd[i] != 2 {
        boxed := false;
      }
      if nbd[i] == 0 {
        iwhere[i] := -1;
      } else {
        cnstnd := true;
        if nbd[i] == 2 && u[i] - l[i] <= 0.0 {
          iwhere[i] := 3;
        } else {
          iwhere[i] := 0;
        }
      }
      i := i + 1;
    }
  }

  lemma ClippedIsSane(v: Var)
    requires 0 <= v.nbd <= 3 && (v.nbd == 2 ==> v.l <= v.u)
    ensures v.(x := v.Clip(v.x), status := InitialStatus(v.nbd, v.l, v.u)).Sane()
  {
  }

  /** The value within the bounds that is nearest to z. */
  function Nearest(nbd: int, l: real, u: real, z: real): real {
    Var(z, l, u, nbd, 0.0, 0).Clip(z)
  }

  function InitialStatus(nbd: int, l: real, u: real): int {
    if nbd == 0 then -1 else if nbd == 2 && u - l <= 0.0 then 3 else 0
  }

  /** The first loop of active. */
  method Project(n: nat, l: array<real>, u: array<real>, nbd: array<int>, x: array<real>) returns (prjctd: bool)
    requires x.Length == l.Length == u.Length == nbd.Length == n + 1 && x != l && x != u
    requires forall i :: 1 <= i <= n ==> 0 <= nbd[i] <= 3 && (nbd[i] == 2 ==> l[i] <= u[i])
    modifies x
    ensures forall i :: 1 <= i <= n ==> x[i] == Nearest(nbd[i], l[i], u[i], old(x[i]))
    ensures prjctd <==> exists i :: 1 <= i <= n && x[i] != old(x[i])
  {
    prjctd := false;
    var i := 1;
    while i <= n
      invariant 1 <= i <= n + 1
      invariant forall k :: 1 <= k < i ==> x[k] == Nearest(nbd[k], l[k], u[k], old(x[k]))
      invariant forall k :: i <= k <= n ==> x[k] == old(x[k])
      invariant prjctd <==> exists k :: 1 <= k < i && x[k] != old(x[k])
    {
      if nbd[i] > 0 {
        if nbd[i] <= 2 && x[i] <= l[i] {
          if x[i] < l[i] {
            prjctd := true;
            x[i] := l[i];
          }
        } else if nbd[i] >= 2 && x[i] >= u[i] {
          if x[i] > u[i] {
            prjctd := true;
            x[i] := u[i];
          }
        }
      }
      i := i + 1;
    }
  }
}
