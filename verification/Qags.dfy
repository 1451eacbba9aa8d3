/** The adaptive bisection of rdqagse, with the quadrature rule and the extrapolation left open. */
module Qags {
  import opened Basics
  import opened Bisections
  import opened ErrorList

  /** How a pass of the main loop ends. */
  datatype Exit = Continue | Accurate | Stopped

  /** The arguments and local state of one run of rdqagse. */
  class Run {
    const q: Problem
    const alist: array<real>
    const blist: array<real>
    const rlist: array<real>
    const elist: array<real>
    const iord: array<int>

    var last: nat
    var maxerr: int
    var nrmax: nat
    var errmax: real
    var area: real
    var errsum: real
    var errbnd: real
    var result: real
    var abserr: real
    var ier: nat
    ghost var chain: seq<int>
    ghost var history: seq<Bisection>

    // roundoff counters and the state of the extrapolation
    var iroff1: nat
    var iroff2: nat
    var iroff3: nat
    var ierro: nat
    var ksgn: int
    var defabs: real
    var extrap: bool
    var noext: bool
    var small: real
    var erlarg: real
    var ertest: real
    var erlast: real
    var erro12: real
    var correc: real
    var a1: real
    var b1: real
    var ktmin: nat
    var numrl2: int
    var calls: nat
    var neval: nat

    /** The arrays, indexed from 1 to limit, are all different. */
    ghost predicate Arrays()
    {
      && q.limit >= 1
      && alist.Length == blist.Length == rlist.Length == elist.Length == q.limit + 1
      && iord.Length == q.limit + 2
      && alist != blist && alist != rlist && alist != elist && blist != rlist && blist != elist && rlist != elist
    }

    /** The intervals as they are now. */
    ghost function Now(): Lists
      reads alist, blist, rlist, elist
    {
      Lists(alist[..], blist[..], rlist[..], elist[..])
    }

    /** Invariant of the bisection. */
    ghost predicate Valid()
      reads `last, `area, `errsum, `chain, `history, alist, blist, rlist, elist, iord
    {
      && Arrays()
      && 1 <= last <= q.limit
      && Consistent(q, Now(), last, chain, area, errsum)
      && (last >= 2 ==> Ordered(elist[..], ListOf(iord, ListLength(q.limit, last)), q.limit, last))
      && (last == 1 ==> iord[1] == 1)
      && |history| == last - 1 && q.Recorded(history, Now())
    }

    /** The next interval to cut is the first of the list. */
    ghost predicate Ready()
      reads `last, `area, `errsum, `chain, `history, `maxerr, `nrmax, `errmax, alist, blist, rlist, elist, iord
    {
      Valid() && nrmax == 1 && maxerr == iord[1] && 1 <= maxerr <= last && errmax == elist[maxerr]
    }

    /** The counters as long as the run goes on; extrap is off again before each cut, so iroff2 and ierro stay 0. */
    ghost predicate Counted()
      reads `history, `iroff1, `iroff2, `iroff3, `ierro
    {
      && iroff1 == |q.WithoutGain(history)| && iroff3 == |q.Growing(history)|
      && iroff2 == 0 && ierro == 0
    }

    /** The state of the extrapolation: the last ktmin of them have brought nothing, but the one before them has. */
    ghost predicate Extrapolating()
      reads `calls, `abserr, `result, `noext, `ktmin
    {
      && BestSoFar() && (noext <==> q.Over(calls))
      && ktmin <= calls && q.BestError(calls) == q.BestError(calls - ktmin)
      && (ktmin < calls ==> q.BestError(calls - ktmin) < q.BestError(calls - ktmin - 1))
    }

    /** Before a pass of the main loop. */
    ghost predicate GoesOn()
      reads `last, `area, `errsum, `chain, `history, `maxerr, `nrmax, `errmax, `iroff1, `iroff2, `iroff3, `ierro,
        `extrap, `ier, `calls, `abserr, `result, `noext, `ktmin, `small, alist, blist, rlist, elist, iord
    {
      && Ready() && last < q.limit && ier == 0 && Counted() && !extrap && Extrapolating()
      && (last >= 2 ==> small == q.Small(calls))
      && q.MayGoOn(history, Now(), maxerr, calls)
    }

    /** After a cut. */
    ghost predicate CutMade()
      reads `last, `area, `errsum, `chain, `history, `iroff1, `iroff2, `iroff3, `ierro, `errbnd, `ier, `calls,
        `abserr, `result, `noext, `ktmin, `small, alist, blist, rlist, elist, iord
    {
      && Valid() && |history| >= 1 && history[|history| - 1].calls == calls && Counted() && Extrapolating()
      && (last >= 3 ==> small == q.Small(calls))
      && q.FlagIs(history, ier) && errbnd == q.Bound(area)
    }

    /** The last cut has neither been accurate enough nor set a flag, and an extrapolation is due, the one after c. */
    ghost predicate Pending(c: nat)
      reads `last, `area, `errsum, `chain, `history, `iroff1, `iroff2, `iroff3, `ierro, alist, blist, rlist, elist, iord
    {
      && Valid() && 3 <= last < q.limit && Counted()
      && history[|history| - 1].calls == c && q.FlagIs(history, 0) && !q.Met(Now(), last)
      && q.Due(Now(), last, iord[1], c)
    }

    /** The main loop has been left. */
    ghost predicate Ended(exit: Exit)
      reads `last, `area, `errsum, `chain, `history, `ierro, `ier, `calls, `abserr, `result,
        alist, blist, rlist, elist, iord
    {
      && Valid() && last >= 2 && BestSoFar() && ierro == 0 && exit != Continue
      && q.Ends(history, Now(), iord[1], calls, ier)
      && (exit == Accurate <==> errsum <= q.Bound(area))
      && (exit == Stopped && ier == 0 ==> abserr < q.oflow && abserr <= q.Bound(result))
    }

    /** abserr is the least error the extrapolation has estimated so far, and result goes with it. */
    ghost predicate BestSoFar()
      reads `abserr, `result, `calls
    {
      BestAmong(calls, abserr, result) && abserr == q.BestError(calls) && result == q.BestResult(calls)
    }

    /** err is the least error in the first k answers, if it is not oflow, and res the estimate that goes with it. */
    ghost predicate BestAmong(k: nat, err: real, res: real) {
      && err <= q.oflow
      && (forall c :: 1 <= c <= k ==> err <= q.extrapolation(c).abseps)
      && (err < q.oflow ==>
        exists c :: 1 <= c <= k && err == q.extrapolation(c).abseps && res == q.extrapolation(c).reseps)
    }

    lemma BestOfOneMore(k: nat, err: real, res: real)
      requires BestAmong(k, err, res)
      ensures err <= q.oflow
      ensures var x := q.extrapolation(k + 1);
        if x.abseps < err then BestAmong(k + 1, x.abseps, x.reseps) else BestAmong(k + 1, err, res)
    {
    }

    constructor (q: Problem)
      requires q.limit >= 1
      ensures Arrays() && fresh(alist) && fresh(blist) && fresh(rlist) && fresh(elist) && fresh(iord)
      ensures this.q == q
    {
      this.q := q;
      alist := new real[q.limit + 1];
      blist := new real[q.limit + 1];
      rlist := new real[q.limit + 1];
      elist := new real[q.limit + 1];
      iord := new int[q.limit + 2];
    }

    /** Stores the halves of interval maxerr, the worse one in its place. */
    method StoreHalves(left: Estimate, right: Estimate, a1: real, b1: real, a2: real, b2: real)
      requires Arrays() && 1 <= maxerr < last <= q.limit
      requires a1 == alist[maxerr] && b2 == blist[maxerr] && b1 == a2 == (a1 + b2) * 0.5
      requires left == q.rule(a1, b1) && right == q.rule(a2, b2)
      modifies alist, blist, rlist, elist
      ensures HalvesStored(q.rule, old(Now()), Now(), maxerr, last)
      ensures rlist[maxerr] + rlist[last] == left.result + right.result
      ensures elist[maxerr] + elist[last] == left.abserr + right.abserr
    {
      rlist[maxerr] := left.result;
      rlist[last] := right.result;
      if right.abserr > left.abserr {
        alist[maxerr] := a2;
        alist[last] := a1;
        blist[last] := b1;
        rlist[maxerr] := right.result;
        rlist[last] := left.result;
        elist[maxerr] := right.abserr;
        elist[last] := left.abserr;
      } else {
        alist[last] := a2;
        blist[maxerr] := b1;
        blist[last] := b2;
        elist[maxerr] := left.abserr;
        elist[last] := right.abserr;
      }
    }

    /** The estimates for the halves of interval maxerr, and the new sums. */
    method Measure() returns (left: Estimate, right: Estimate, area12: real, a2: real, b2: real)
      requires 1 <= maxerr < alist.Length == blist.Length == rlist.Length
      modifies `last, `area, `errsum, `erlast, `erro12, `a1, `b1
      ensures last == old(last) + 1
      ensures a1 == alist[maxerr] && b2 == blist[maxerr] && b1 == a2 == (a1 + b2) * 0.5
      ensures left == q.rule(a1, b1) && right == q.rule(a2, b2)
      ensures area12 == left.result + right.result && erro12 == left.abserr + right.abserr
      ensures area == old(area) + area12 - rlist[maxerr] && errsum == old(errsum) + erro12 - errmax
    {
      last := last + 1;
      a1 := alist[maxerr];
      b1 := (alist[maxerr] + blist[maxerr]) * 0.5;
      a2 := b1;
      b2 := blist[maxerr];
      erlast := errmax;
      left := q.rule(a1, b1);
      right := q.rule(a2, b2);
      area12 := left.result + right.result;
      erro12 := left.abserr + right.abserr;
      errsum := errsum + erro12 - errmax;
      area := area + area12 - rlist[maxerr];
    }

    /** Cuts interval maxerr in two. */
    method Bisect()
      requires Ready() && last < q.limit && Counted() && !extrap && ier == 0
      requires q.MayGoOn(history, Now(), maxerr, calls)
      modifies `last, `area, `errsum, `chain, `history, `erlast, `erro12, `a1, `b1,
        `iroff1, `iroff2, `iroff3, `errbnd, `ier, `ierro, alist, blist, rlist, elist
      ensures last == old(last) + 1 && elist[maxerr] >= elist[last]
      ensures HalvesStored(q.rule, old(Now()), Now(), maxerr, last)
      ensures CutStored()
    {
      hide *;
      CutIsKnown();
      CountersKnown();
      ghost var h, s := history, Bisection(Now(), maxerr, last, calls);
      var left, right, area12, a2, b2 := Measure();
      history := h + [s];
      CheckRoundoff(left, right, area12, a1, a2, b2, s);
      FlagAfter(h, s);
      StoreAndCut(left, right, a1, b1, a2, b2, old(area), old(errsum));
      q.RecordMore(h, s, Now());
      NowStored();
    }

    /** A cut has been stored, but the list is not yet in order. */
    ghost predicate CutStored()
      reads `last, `area, `errsum, `chain, `history, `iroff1, `iroff2, `iroff3, `ierro, `errbnd, `ier, `calls,
        alist, blist, rlist, elist
    {
      && Arrays() && 2 <= last <= q.limit && Consistent(q, Now(), last, chain, area, errsum)
      && |history| == last - 1 && q.Recorded(history, Now()) && history[|history| - 1].calls == calls
      && Counted() && q.FlagIs(history, ier) && errbnd == q.Bound(area)
    }

    lemma NowStored()
      requires Arrays() && 2 <= last <= q.limit && Consistent(q, Now(), last, chain, area, errsum)
      requires |history| == last - 1 && q.Recorded(history, Now()) && history[|history| - 1].calls == calls
      requires Counted() && q.FlagIs(history, ier) && errbnd == q.Bound(area)
      ensures CutStored()
    {
    }

    /** What the counters and the flag say of all cuts. */
    lemma FlagAfter(h: seq<Bisection>, s: Bisection)
      requires history == h + [s] && s.count + 1 == last
      requires iroff1 == |q.WithoutGain(h)| + if q.CutWithoutGain(s) then 1 else 0
      requires iroff3 == |q.Growing(h)| + if q.CutThatGrows(s) then 1 else 0
      requires iroff2 == 0 && ierro == 0
      ensures Counted()
      requires ier == if q.CutAtBadSpot(s) then 4 else if last == q.limit then 1
        else if iroff1 + iroff2 >= 10 || iroff3 >= 20 then 2 else 0
      ensures q.FlagIs(history, ier)
    {
      hide Problem.WithoutGain, Problem.Growing, Problem.CutWithoutGain, Problem.CutThatGrows, Problem.CutAtBadSpot;
      q.OneMoreWithoutGain(h, s);
      q.OneMoreGrowing(h, s);
    }

    lemma CountersKnown()
      requires Counted()
      ensures iroff1 == |q.WithoutGain(history)| && iroff3 == |q.Growing(history)| && iroff2 == 0 && ierro == 0
    {
    }

    /** The next cut, as it will be recorded. */
    lemma CutIsKnown()
      requires Ready()
      ensures Arrays() && 1 <= maxerr <= last <= q.limit && |history| == last - 1
      ensures alist.Length == blist.Length == rlist.Length == elist.Length == q.limit + 1
      ensures var s := Bisection(Now(), maxerr, last, calls);
        && q.Known(s) && s.before.el[maxerr] == errmax == elist[maxerr]
        && s.before.al[maxerr] == alist[maxerr] && s.before.bl[maxerr] == blist[maxerr]
        && s.before.rl[maxerr] == rlist[maxerr] && LargestChosen(s)
      ensures q.Recorded(history, Now()) && Consistent(q, Now(), last, chain, area, errsum)
    {
      LargestIsFirst();
      hide Ordered, Consistent, Problem.Recorded, LargestChosen;
    }

    /** Stores the halves and puts them into the chain. */
    method StoreAndCut(left: Estimate, right: Estimate, a1: real, b1: real, a2: real, b2: real,
                       ghost area0: real, ghost errsum0: real)
      requires Arrays() && 1 <= maxerr < last <= q.limit
      requires Consistent(q, Now(), last - 1, chain, area0, errsum0)
      requires a1 == alist[maxerr] && b2 == blist[maxerr] && b1 == a2 == (a1 + b2) * 0.5
      requires left == q.rule(a1, b1) && right == q.rule(a2, b2)
      requires area == area0 + (left.result + right.result) - rlist[maxerr]
      requires errsum == errsum0 + (left.abserr + right.abserr) - elist[maxerr]
      modifies `chain, alist, blist, rlist, elist
      ensures Consistent(q, Now(), last, chain, area, errsum)
      ensures HalvesStored(q.rule, old(Now()), Now(), maxerr, last)
      ensures elist[maxerr] >= elist[last]
    {
      hide Consistent, HalvesStored;
      ghost var l := Now();
      StoreHalves(left, right, a1, b1, a2, b2);
      chain := CutConsistent(q, l, last - 1, chain, area0, errsum0, maxerr, Now());
    }

    /** The roundoff tests and error flags of the cut s. */
    method CheckRoundoff(left: Estimate, right: Estimate, area12: real, a1: real, a2: real, b2: real,
                         ghost s: Bisection)
      requires Arrays() && 1 <= maxerr <= q.limit && last <= q.limit
      requires q.Known(s) && s.chosen == maxerr && last == s.count + 1
      requires a1 == s.before.al[maxerr] && b2 == s.before.bl[maxerr] && a2 == (a1 + b2) * 0.5
      requires rlist[maxerr] == s.before.rl[maxerr] && errmax == s.before.el[maxerr]
      requires left == q.rule(a1, a2) && right == q.rule(a2, b2)
      requires area12 == left.result + right.result && erro12 == left.abserr + right.abserr
      modifies `iroff1, `iroff2, `iroff3, `errbnd, `ier, `ierro
      ensures iroff1 == old(iroff1) + if q.CutWithoutGain(s) && !extrap then 1 else 0
      ensures iroff2 == old(iroff2) + if q.CutWithoutGain(s) && extrap then 1 else 0
      ensures iroff3 == old(iroff3) + if q.CutThatGrows(s) then 1 else 0
      ensures ierro == if iroff2 >= 5 then 3 else old(ierro)
      ensures ier == if q.CutAtBadSpot(s) then 4 else if last == q.limit then 1
        else if iroff1 + iroff2 >= 10 || iroff3 >= 20 then 2 else old(ier)
      ensures errbnd == q.Bound(area)
    {
      hide Problem.Bound;
      CutIs(s, left, right);
      hide Problem.CutWithoutGain, Problem.CutThatGrows, Problem.CutAtBadSpot;
      CountRoundoff(left, right, area12);
      errbnd := q.Bound(area);
      if iroff1 + iroff2 >= 10 || iroff3 >= 20 {
        ier := 2;
      }
      if iroff2 >= 5 {
        ierro := 3;
      }
      if last == q.limit {
        ier := 1;
      }
      if Max(Abs(a1), Abs(b2)) <= (EPMACH * 100.0 + 1.0) * (Abs(a2) + q.uflow * 1000.0) {
        ier := 4;
      }
    }

    method CountRoundoff(left: Estimate, right: Estimate, area12: real)
      requires Arrays() && 1 <= maxerr <= q.limit
      requires area12 == left.result + right.result && erro12 == left.abserr + right.abserr
      modifies `iroff1, `iroff2, `iroff3
      ensures iroff1 == old(iroff1) + if q.NoGain(rlist[maxerr], errmax, left, right) && !extrap then 1 else 0
      ensures iroff2 == old(iroff2) + if q.NoGain(rlist[maxerr], errmax, left, right) && extrap then 1 else 0
      ensures iroff3 == old(iroff3) + if last > 10 && q.Grows(errmax, left, right) then 1 else 0
    {
      if !(left.resasc == left.abserr || right.resasc == right.abserr) {
        if Abs(rlist[maxerr] - area12) <= Abs(area12) * 0.00001 && erro12 >= errmax * 0.99 {
          if extrap {
            iroff2 := iroff2 + 1;
          } else {
            iroff1 := iroff1 + 1;
          }
        }
        if last > 10 && erro12 > errmax {
          iroff3 := iroff3 + 1;
        }
      }
    }

    /** What a cut is, from the estimates for its halves. */
    lemma CutIs(s: Bisection, left: Estimate, right: Estimate)
      requires q.Known(s)
      requires var lo, hi := s.before.al[s.chosen], s.before.bl[s.chosen];
        left == q.rule(lo, (lo + hi) * 0.5) && right == q.rule((lo + hi) * 0.5, hi)
      ensures q.CutWithoutGain(s) <==> q.NoGain(s.before.rl[s.chosen], s.before.el[s.chosen], left, right)
      ensures q.CutThatGrows(s) <==> s.count + 1 > 10 && q.Grows(s.before.el[s.chosen], left, right)
      ensures q.CutAtBadSpot(s) <==> q.BadSpot(s.before.al[s.chosen], s.before.bl[s.chosen])
    {
    }

    lemma LargestIsFirst()
      requires Ready()
      ensures LargestChosen(Bisection(Now(), maxerr, last, calls))
    {
      if last >= 2 {
        var l := ListOf(iord, ListLength(q.limit, last));
        assert l[0] == iord[1];
        forall k | 1 <= k <= last ensures elist[k] <= elist[maxerr] {
          LargestFirst(elist[..], l, q.limit, last, 0, k);
        }
      }
    }

    lemma ErrorsElsewhere(l: Lists, k: int)
      requires HalvesStored(q.rule, l, Now(), k, last)
      ensures |l.el| == elist.Length && forall z :: 1 <= z < last && z != k ==> z < elist.Length && elist[z] == l.el[z]
    {
      assert Now().el == elist[..];
    }

    /** One pass of the main loop up to the call of the sorting routine. */
    method BisectAndSort()
      requires GoesOn()
      modifies `last, `area, `errsum, `chain, `history, `erlast, `erro12, `a1, `b1,
        `iroff1, `iroff2, `iroff3, `errbnd, `ier, `ierro, `maxerr, `errmax, `nrmax,
        alist, blist, rlist, elist, iord
      ensures Ready() && last == old(last) + 1 && CutMade() && !extrap
    {
      hide *;
      ReadyToCut();
      ListIsOrdered();
      ghost var l := Now();
      Bisect();
      Sort(l);
    }

    /** Puts the list in order after a cut; l are the intervals before it. */
    method Sort(ghost l: Lists)
      requires CutStored() && Extrapolating() && (last >= 3 ==> small == q.Small(calls))
      requires 2 <= last <= q.limit && elist.Length == q.limit + 1 && iord.Length == q.limit + 2
      requires 1 == nrmax < ListLength(q.limit, last) < iord.Length && 1 <= maxerr < last && maxerr == iord[1]
      requires last > 2 ==> Ordered(l.el, ListOf(iord, ListLength(q.limit, last - 1)), q.limit, last - 1)
      requires HalvesStored(q.rule, l, Now(), maxerr, last) && elist[maxerr] >= elist[last]
      modifies `maxerr, `errmax, `nrmax, iord
      ensures Ready() && CutMade()
    {
      hide *;
      ErrorsElsewhere(l, maxerr);
      maxerr, errmax, nrmax := Rdqpsrt(q.limit, last, maxerr, nrmax, elist, iord, l.el);
      IsCut();
    }

    lemma ReadyToCut()
      requires GoesOn()
      ensures Ready() && 1 <= last < q.limit && ier == 0 && Counted() && !extrap && Extrapolating()
      ensures last >= 2 ==> small == q.Small(calls)
      ensures q.MayGoOn(history, Now(), maxerr, calls)
    {
      hide Consistent, Ordered, Problem.Recorded, Counted, Extrapolating, Problem.MayGoOn;
    }

    /** The list before a cut, as the sorting routine needs it. */
    lemma ListIsOrdered()
      requires Ready() && last < q.limit
      ensures Arrays() && elist.Length == q.limit + 1 && iord.Length == q.limit + 2
      ensures nrmax == 1 < ListLength(q.limit, last + 1) < iord.Length && maxerr == iord[1] && 1 <= maxerr <= last
      ensures ListLength(q.limit, last) < iord.Length
      ensures last >= 2 ==> Ordered(Now().el, ListOf(iord, ListLength(q.limit, last)), q.limit, last)
    {
      hide Consistent, Ordered, Problem.Recorded;
    }

    lemma IsCut()
      requires CutStored() && 1 <= ListLength(q.limit, last) < iord.Length && elist.Length == q.limit + 1
      requires Ordered(elist[..], ListOf(iord, ListLength(q.limit, last)), q.limit, last)
      requires 1 <= maxerr < elist.Length && maxerr <= last && maxerr == iord[1] && errmax == elist[maxerr]
      requires nrmax == 1
      requires Extrapolating() && (last >= 3 ==> small == q.Small(calls))
      ensures Ready() && CutMade()
    {
      hide Consistent, Ordered, Problem.Recorded, Counted, Extrapolating, Problem.FlagIs;
    }

    /** The interval at position p of the list becomes the next to be cut. */
    method SelectNext(p: nat)
      requires Valid() && last >= 2 && 1 <= p <= ListLength(q.limit, last)
      modifies `maxerr, `errmax
      ensures maxerr == iord[p] && 1 <= maxerr <= last && errmax == elist[maxerr]
    {
      hide Consistent, Ordered, LargestChosen;
      EntryInRange(elist[..], iord, q.limit, last, p);
      maxerr := iord[p];
      errmax := elist[maxerr];
    }

    /** Passes over the leading intervals that are too small to be cut before an extrapolation. */
    method SkipSmall()
      requires Valid() && last >= 3 && nrmax == 2
      modifies `maxerr, `errmax, `nrmax
    {
      assert Arrays() && last <= q.limit;
      hide Valid;
      var id := nrmax;
      var jupbnd := last;
      if last > q.limit / 2 + 2 {
        jupbnd := q.limit + 3 - last;
      }
      var k := id;
      while k <= jupbnd
        invariant Valid() && 2 <= nrmax <= k
        decreases jupbnd - k
      {
        SelectNext(nrmax);
        k := k + 1;
        if Abs(blist[maxerr] - alist[maxerr]) > small {
          continue;
        }
        nrmax := nrmax + 1;
      }
    }

    /** One more extrapolation: what it has to do with those before. */
    lemma OneMoreExtrapolation(err: real)
      requires Extrapolating()
      ensures q.BestError(calls) == abserr && q.BestResult(calls) == result && BestAmong(calls, abserr, result)
      ensures ktmin <= calls && q.BestError(calls) == q.BestError(calls - ktmin)
      ensures ktmin < calls ==> q.BestError(calls - ktmin) < q.BestError(calls - ktmin - 1)
      ensures ktmin + 1 > 5 && abserr < err * 0.001 <==> q.Stale(calls + 1, err)
      ensures q.Over(calls + 1) <==> noext || q.extrapolation(calls + 1).numrl2 == 1
    {
      hide BestAmong;
      var c := calls + 1;
      if ktmin >= 5 {
        q.BestErrorFalls(calls - ktmin, calls - 5);
        q.BestErrorFalls(calls - 5, calls);
      } else if calls >= 5 {
        q.BestErrorFalls(calls - 5, calls - ktmin - 1);
      }
      if q.Over(calls) {
        var d :| 1 <= d <= calls && q.extrapolation(d).numrl2 == 1;
        assert q.Over(c);
      }
    }

    /** Calls the extrapolation routine; stop tells whether its result ends the run. */
    method Extrapolate() returns (stop: bool)
      requires Extrapolating() && ier == 0 && !noext
      modifies `numrl2, `calls, `ktmin, `ier, `abserr, `result, `correc, `ertest, `noext
      ensures calls == old(calls) + 1 && BestSoFar()
      ensures stop <==> q.Stale(calls, errsum) || q.Accepts(calls)
      ensures ier == if q.Stale(calls, errsum) then 5 else 0
      ensures q.Accepts(calls) ==> abserr < q.oflow && abserr <= q.Bound(result)
      ensures !stop ==> Extrapolating()
    {
      hide *;
      OneMoreExtrapolation(errsum);
      ghost var k, e, r := ktmin, abserr, result;
      numrl2 := numrl2 + 1;
      calls := calls + 1;
      var x := q.extrapolation(calls);
      numrl2 := x.numrl2;
      ktmin := ktmin + 1;
      if ktmin > 5 && abserr < errsum * 0.001 {
        ier := 5;
      }
      if x.abseps < abserr {
        ktmin := 0;
        abserr := x.abseps;
        result := x.reseps;
        correc := erlarg;
        ertest := q.Bound(x.reseps);
        if abserr <= ertest {
          OneMoreBest(k, e, r);
          return true;
        }
      }
      if numrl2 == 1 {
        noext := true;
      }
      OneMoreBest(k, e, r);
      stop := ier == 5;
    }

    /** The state after one more extrapolation; before it the best error was e, with the result r. */
    lemma OneMoreBest(k: nat, e: real, r: real)
      requires calls >= 1 && q.BestError(calls - 1) == e && q.BestResult(calls - 1) == r && BestAmong(calls - 1, e, r)
      requires k < calls && q.BestError(calls - 1) == q.BestError(calls - 1 - k)
      requires k < calls - 1 ==> q.BestError(calls - 1 - k) < q.BestError(calls - 2 - k)
      requires var x := q.extrapolation(calls);
        if x.abseps < e then abserr == x.abseps && result == x.reseps && ktmin == 0
        else abserr == e && result == r && ktmin == k + 1
      ensures BestSoFar()
      ensures q.Accepts(calls) <==> q.extrapolation(calls).abseps < e && abserr <= q.Bound(result)
      ensures q.Accepts(calls) ==> abserr < q.oflow
      ensures (noext <==> q.Over(calls)) ==> Extrapolating()
    {
      hide BestAmong, Problem.Bound, Problem.Over;
      BestOfOneMore(calls - 1, e, r);
    }

    /**
     * What follows the sorting in the main loop; stop tells whether the loop is left. However
     * far the extrapolation has moved nrmax, it is 1 again when the loop goes on.
     */
    method Control() returns (stop: bool)
      requires Ready() && !extrap && CutMade() && last >= 3 && errsum > errbnd && ier == 0
      modifies `erlarg, `extrap, `nrmax, `maxerr, `errmax, `numrl2, `calls, `ktmin,
        `ier, `abserr, `result, `correc, `ertest, `noext, `small
      ensures if stop then Ended(Stopped) else GoesOn()
    {
      hide *;
      stop := false;
      if noext {
        NoExtrapolation();
        return;
      }
      UpdateErlarg();
      if !extrap {
        if IsLarge() {
          NoExtrapolation();
          return;
        }
        IsPending();
        extrap := true;
        nrmax := 2;
      }
      stop := TryExtrapolation();
    }

    /** The run goes on without an extrapolation if none is due. */
    lemma NoExtrapolation()
      requires Ready() && !extrap && CutMade() && last >= 3 && errsum > errbnd && ier == 0 && (noext || IsLarge())
      ensures GoesOn()
    {
      AfterCut();
      hide Valid, BestSoFar, Counted, Problem.Bound, Problem.Met, Problem.FlagIs, Problem.Stale, Problem.Accepts;
      hide Problem.Over;
    }

    lemma IsPending()
      requires Ready() && CutMade() && last >= 3 && errsum > errbnd && ier == 0 && !noext && !IsLarge()
      ensures Pending(calls)
      ensures Valid() && Extrapolating() && small == q.Small(calls)
    {
      AfterCut();
      FirstIsListed();
      hide Valid, BestSoFar, Counted, Problem.Bound, Problem.Met, Problem.FlagIs, Problem.Stale, Problem.Accepts;
      hide Problem.Over;
    }

    lemma FirstIsListed()
      requires Ready()
      ensures Arrays() && 1 <= maxerr == iord[1] <= last <= q.limit && |Now().al| == |Now().bl| == q.limit + 1
      ensures Now().al[maxerr] == alist[maxerr] && Now().bl[maxerr] == blist[maxerr]
    {
      hide Ordered, Consistent, Problem.Recorded;
    }

    /** An extrapolation that is due. */
    method TryExtrapolation() returns (stop: bool)
      requires Valid() && Pending(calls) && Extrapolating() && small == q.Small(calls) && ier == 0 && !noext
      requires nrmax == 2 && last >= 3
      modifies `erlarg, `extrap, `nrmax, `maxerr, `errmax, `numrl2, `calls, `ktmin,
        `ier, `abserr, `result, `correc, `ertest, `noext, `small
      ensures if stop then Ended(Stopped) else GoesOn()
    {
      hide *;
      ErrorsAreSummed();
      ghost var c := calls;
      if ierro != 3 && erlarg > ertest {
        SkipSmall();
      }
      stop := Extrapolate();
      if stop {
        StoppedAfter(c);
      } else {
        PrepareNext();
        OnAfter(c);
      }
    }

    lemma StoppedAfter(c: nat)
      requires Pending(c) && calls == c + 1 && errsum == SumTo(Now().el, last) && BestSoFar()
      requires q.Stale(calls, errsum) || q.Accepts(calls)
      requires ier == if q.Stale(calls, errsum) then 5 else 0
      requires q.Accepts(calls) ==> abserr < q.oflow && abserr <= q.Bound(result)
      ensures Ended(Stopped)
    {
      ErrorsAreSummed();
      hide Valid, BestSoFar, Problem.Bound, Problem.FlagIs, Problem.Stale, Problem.Accepts, Problem.Over;
    }

    lemma OnAfter(c: nat)
      requires Pending(c) && calls == c + 1 && errsum == SumTo(Now().el, last) && Ready() && !extrap
      requires Extrapolating() && !q.Stale(calls, errsum) && !q.Accepts(calls) && ier == 0 && small == q.Small(c) * 0.5
      ensures GoesOn()
    {
      ErrorsAreSummed();
      hide Valid, Extrapolating, Counted, Problem.Bound, Problem.FlagIs, Problem.Stale, Problem.Accepts, Problem.Over;
      hide Problem.Met;
    }

    lemma ErrorsAreSummed()
      requires Valid()
      ensures Arrays() && 1 <= last <= q.limit
      ensures |Now().el| == |Now().rl| == q.limit + 1
      ensures errsum == SumTo(Now().el, last) && area == SumTo(Now().rl, last)
      ensures last <= q.limit && |history| == last - 1
    {
      hide Ordered, Problem.Recorded;
    }

    /** erlarg is the error of the intervals larger than the smallest. */
    method UpdateErlarg()
      modifies `erlarg
    {
      erlarg := erlarg - erlast;
      if Abs(b1 - a1) > small {
        erlarg := erlarg + erro12;
      }
    }

    /** Leaves the extrapolation: the next interval is again the one with the largest error. */
    method PrepareNext()
      requires Valid() && last >= 3
      modifies `maxerr, `errmax, `nrmax, `extrap, `small, `erlarg
      ensures Ready() && !extrap && small == old(small) * 0.5
    {
      assert Arrays() && last <= q.limit;
      hide Valid;
      SelectNext(1);
      nrmax := 1;
      extrap := false;
      small := small * 0.5;
      erlarg := errsum;
    }

    /** Whether the interval to be cut next is larger than the smallest so far. */
    predicate IsLarge()
      requires Ready()
      reads `last, `area, `errsum, `chain, `history, `maxerr, `nrmax, `errmax, `small, alist, blist, rlist, elist, iord
    {
      Abs(blist[maxerr] - alist[maxerr]) > small
    }

    /** The list of one interval that the bisection starts from. */
    method StartList(first: Estimate)
      requires Arrays() && first == q.rule(q.a, q.b)
      modifies `last, `errmax, `maxerr, `area, `errsum, `nrmax, `chain, `history, alist, blist, rlist, elist, iord
      ensures Ready() && last == 1 && area == first.result && errsum == first.abserr && history == []
    {
      hide Consistent;
      alist[1] := q.a;
      blist[1] := q.b;
      rlist[1] := first.result;
      elist[1] := first.abserr;
      iord[1] := 1;
      last := 1;
      errmax := first.abserr;
      maxerr := 1;
      area := first.result;
      errsum := first.abserr;
      nrmax := 1;
      chain := [1];
      history := [];
      WholeInterval();
    }

    ghost predicate Cleared()
      reads `iroff1, `iroff2, `iroff3, `ierro, `calls, `ktmin, `extrap, `noext
    {
      iroff1 == iroff2 == iroff3 == ierro == calls == ktmin == 0 && !extrap && !noext
    }

    /** Clears the outputs and the counters. */
    method Reset()
      modifies `ier, `neval, `last, `result, `abserr, `ierro, `calls, `numrl2, `ktmin, `extrap, `noext, `iroff1,
        `iroff2, `iroff3
      ensures ier == 0 && neval == 0 && last == 0 && result == 0.0 && abserr == 0.0 && Cleared()
    {
      ier := 0;
      neval := 0;
      last := 0;
      result := 0.0;
      abserr := 0.0;
      ierro := 0;
      calls := 0;
      numrl2 := 2;
      ktmin := 0;
      extrap := false;
      noext := false;
      iroff1 := 0;
      iroff2 := 0;
      iroff3 := 0;
    }

    /** First approximation and the tests that can make it the answer. */
    method FirstEstimate() returns (accepted: bool)
      requires Arrays()
      modifies this, alist, blist, rlist, elist, iord
      ensures last == 0 <==> q.Invalid()
      ensures last == 0 ==> accepted && ier == 6 && result == 0.0 && abserr == 0.0 && neval == 0
      ensures last != 0 ==> Tested() && (accepted <==> ier != 0 || q.FirstIsEnough())
      ensures last != 0 ==> neval == if accepted then 21 else 0
      ensures accepted && ier == 0 ==> abserr <= q.Bound(result)
      ensures Cleared()
    {
      hide Tested, Cleared, Problem.FirstIsEnough, Problem.Bound;
      Reset();
      if q.epsabs <= 0.0 && q.epsrel < Max(EPMACH * 50.0, 0.00000000000000000000000000005) {
        ier := 6;
        return true;
      }
      accepted := EstimateWhole();
      if accepted {
        neval := last * 42 - 21;
      }
    }

    method EstimateWhole() returns (accepted: bool)
      requires Arrays() && !q.Invalid() && ier == 0
      modifies `ier, `result, `abserr, `defabs, `ksgn, `errbnd, `last, `errmax, `maxerr, `area, `errsum, `nrmax, `chain,
        `history, alist, blist, rlist, elist, iord
      ensures last == 1 && Tested() && (accepted <==> ier != 0 || q.FirstIsEnough())
      ensures accepted && ier == 0 ==> abserr <= q.Bound(result)
    {
      var first := q.rule(q.a, q.b);
      result := first.result;
      abserr := first.abserr;
      BoundNotNegative(result);
      hide Ready, Problem.Bound, Problem.FirstFlag, Problem.Sign;
      TestFirst(first);
      StartList(first);
      accepted := ier != 0 || (abserr <= errbnd && abserr != first.resasc) || abserr == 0.0;
    }

    /** The whole interval has been tested. */
    ghost predicate Tested()
      reads `last, `area, `errsum, `chain, `history, `maxerr, `nrmax, `errmax, `ier, `result, `abserr, `ksgn, `defabs,
        alist, blist, rlist, elist, iord
    {
      && Ready() && last == 1 && history == [] && q.FirstFlag(ier)
      && result == area == q.rule(q.a, q.b).result && abserr == errsum
      && ksgn == q.Sign() && defabs == q.rule(q.a, q.b).resabs
    }

    method TestFirst(first: Estimate)
      requires ier == 0 && q.limit >= 1 && first == q.rule(q.a, q.b) && result == first.result && abserr == first.abserr
      modifies `defabs, `ksgn, `errbnd, `ier
      ensures errbnd == q.Bound(result) && q.FirstFlag(ier)
      ensures ksgn == q.Sign() && defabs == first.resabs
    {
      hide Problem.Bound;
      defabs := first.resabs;
      errbnd := q.Bound(result);
      ksgn := if Abs(result) >= (1.0 - EPMACH * 50.0) * defabs then 1 else -1;
      if abserr <= EPMACH * 100.0 * first.resabs && abserr > errbnd {
        ier := 2;
      }
      if q.limit == 1 {
        ier := 1;
      }
    }

    lemma BoundNotNegative(r: real)
      requires q.epsabs > 0.0 || q.epsrel >= EPMACH * 50.0
      ensures q.Bound(r) >= 0.0
    {
      if q.epsabs <= 0.0 {
        assert q.epsrel * Abs(r) >= 0.0;
      }
    }

    lemma WholeInterval()
      requires Arrays() && alist[1] == q.a && blist[1] == q.b && chain == [1]
      requires rlist[1] == q.rule(q.a, q.b).result == area && elist[1] == q.rule(q.a, q.b).abserr == errsum
      ensures Consistent(q, Now(), 1, chain, area, errsum) && q.Recorded([], Now())
    {
      assert chain[0] == 1;
      assert SumTo(rlist[..], 0) == 0.0 && SumTo(elist[..], 0) == 0.0;
      if q.a < q.b {
        assert alist[..][1] < blist[..][1];
      }
    }

    /** What the tests of the main loop mean after a cut. */
    lemma AfterCut()
      requires Ready() && CutMade()
      ensures |history| == last - 1 >= 1 && last < |Now().rl| && last < |Now().el|
      ensures errsum <= errbnd <==> q.Met(Now(), last)
      ensures errsum <= errbnd || ier != 0 ==> Ended(if errsum <= errbnd then Accurate else Stopped)
      ensures errsum > errbnd && ier == 0 ==> last < q.limit
      ensures last == 2 ==> calls == 0
    {
      var h, l := history, Now();
      assert q.CutRight(h, l, last - 2);
      hide Ordered, HalvesStored, LargestChosen, Problem.CutAtBadSpot, Problem.Roundoff, Problem.Bound, Partition;
      hide BestSoFar;
      if last == 2 {
        assert h[..0] == [];
      }
    }

    /** After the first cut the widths are defined. */
    method Scale()
      requires Ready() && !extrap && CutMade() && last == 2 && errsum > errbnd && ier == 0
      modifies `small, `erlarg, `ertest
      ensures GoesOn()
    {
      AfterCut();
      hide Valid, BestSoFar, Counted, Problem.Bound, Problem.FlagIs, Problem.Stale, Problem.Accepts, Problem.Over;
      hide Problem.Met;
      small := Abs(q.b - q.a) * 0.375;
      erlarg := errsum;
      ertest := errbnd;
    }

    /** One pass of the main loop. */
    method Pass() returns (exit: Exit)
      requires GoesOn()
      modifies `last, `area, `errsum, `chain, `history, `erlast, `erro12, `a1, `b1, `iroff1, `iroff2, `iroff3, `errbnd,
        `ier, `ierro, `maxerr, `errmax, `nrmax, `erlarg, `extrap, `numrl2, `calls, `ktmin, `abserr, `result, `correc,
        `ertest, `noext, `small, alist, blist, rlist, elist, iord
      ensures last == old(last) + 1 && (exit == Continue ==> last < q.limit)
      ensures if exit == Continue then GoesOn() else Ended(exit)
    {
      hide *;
      BisectAndSort();
      AfterCut();
      if errsum <= errbnd {
        return Accurate;
      }
      if ier != 0 {
        return Stopped;
      }
      if last == 2 {
        Scale();
        return Continue;
      }
      var stop := Control();
      return if stop then Stopped else Continue;
    }

    /** The main loop. It is always left from inside: the pass that makes the last interval sets ier. */
    method Iterate() returns (exit: Exit)
      requires GoesOn()
      modifies `last, `area, `errsum, `chain, `history, `erlast, `erro12, `a1, `b1, `iroff1, `iroff2, `iroff3, `errbnd,
        `ier, `ierro, `maxerr, `errmax, `nrmax, `erlarg, `extrap, `numrl2, `calls, `ktmin, `abserr, `result, `correc,
        `ertest, `noext, `small, alist, blist, rlist, elist, iord
      ensures Ended(exit)
    {
      assert last < q.limit;
      hide *;
      exit := Continue;
      while exit == Continue
        invariant if exit == Continue then GoesOn() else Ended(exit)
        invariant exit == Continue ==> last < q.limit
        decreases q.limit - last, exit == Continue
      {
        exit := Pass();
      }
    }

    /** Whether the best extrapolation is given up because the plain sum looks better. */
    method GiveUp() returns (sum: bool, done: bool)
      modifies `abserr, `ier
      ensures abserr == old(abserr) + if ierro == 3 then correc else 0.0
      ensures ier == if old(ier) == 0 then 3 else old(ier)
      ensures sum <==> q.PrefersSum(result, abserr, area, errsum)
      ensures done <==> !sum && area == 0.0
    {
      sum := false;
      done := false;
      if ierro == 3 {
        abserr := abserr + correc;
      }
      if ier == 0 {
        ier := 3;
      }
      if result == 0.0 || area == 0.0 {
        if abserr > errsum {
          sum := true;
        } else if area == 0.0 {
          done := true;
        }
      } else {
        CrossMultiply(abserr, Abs(result), errsum, Abs(area));
        if abserr / Abs(result) > errsum / Abs(area) {
          sum := true;
        }
      }
    }

    /** The test on divergence; a quotient by a zero area is infinite, or not a number if result is zero too. */
    method TestDivergence()
      requires ksgn == q.Sign() && defabs == q.rule(q.a, q.b).resabs
      modifies `ier
      ensures ier == if q.Diverges(result, area, errsum) then 5 else old(ier)
    {
      if ksgn == -1 && Max(Abs(result), Abs(area)) <= defabs * 0.01 {
        return;
      }
      if area == 0.0 {
        if result != 0.0 || errsum > 0.0 {
          ier := 5;
        }
      } else if 0.01 > result / area || result / area > 100.0 || errsum > Abs(area) {
        ier := 5;
      }
    }

    /** Adds up the results of all intervals. */
    method SumResults()
      requires Valid()
      modifies `result, `abserr
      ensures result == area && abserr == errsum
    {
      hide Ordered, Problem.Recorded, Partition;
      result := 0.0;
      var k := 1;
      while k <= last
        invariant 1 <= k <= last + 1 && result == SumTo(rlist[..], k - 1)
      {
        result := result + rlist[k];
        k := k + 1;
      }
      abserr := errsum;
    }

    /** The answer is that of extrapolation number c, which has the least error estimate of all. */
    ghost predicate FromExtrapolation(c: nat)
      reads `calls, `result, `abserr
    {
      && 1 <= c <= calls
      && (forall d :: 1 <= d <= calls ==> q.extrapolation(c).abseps <= q.extrapolation(d).abseps)
      && result == q.extrapolation(c).reseps && abserr == q.extrapolation(c).abseps
    }

    /** The choice between the best extrapolation and the plain sum, after a loop that has ended with this flag. */
    ghost predicate Concluded(flag: nat, summed: bool)
      reads `area, `errsum, `calls, `result, `abserr, `ier, `neval, `last
    {
      var r, e := q.BestResult(calls), q.BestError(calls);
      && (summed <==>
        errsum <= q.Bound(area) || e == q.oflow || (flag != 0 && q.PrefersSum(r, e, area, errsum)))
      && (!summed ==> result == r && abserr == e && exists c :: FromExtrapolation(c))
      && ier == (if !summed && (flag == 0 || area != 0.0) && q.Diverges(r, area, errsum) then 5 else flag)
      && neval == if ier > 2 then last * 42 - 21 else 0
    }

    /** Chooses between the best extrapolation and the plain sum. */
    method Finish(exit: Exit) returns (summed: bool)
      requires Ended(exit) && neval == 0
      requires ksgn == q.Sign() && defabs == q.rule(q.a, q.b).resabs
      modifies `abserr, `result, `ier, `neval
      ensures summed ==> result == area && abserr == errsum
      ensures Concluded(old(ier), summed)
      ensures ier == 0 ==> abserr <= q.Bound(result)
    {
      hide Valid, Problem.Bound, Problem.PrefersSum, Problem.Diverges;
      summed := exit == Accurate || abserr == q.oflow;
      ghost var c := 0;
      if !summed {
        c :| 1 <= c <= calls && abserr == q.extrapolation(c).abseps && result == q.extrapolation(c).reseps;
        var done := false;
        if ier + ierro != 0 {
          summed, done := GiveUp();
        }
        if !summed && !done {
          TestDivergence();
        }
      }
      if summed {
        SumResults();
      }
      if ier > 2 {
        neval := last * 42 - 21;
      }
      assert !summed ==> FromExtrapolation(c);
    }

    lemma CrossMultiply(e: real, r: real, s: real, t: real)
      requires r > 0.0 && t > 0.0
      ensures e / r > s / t <==> e * t > s * r
    {
      var p, z := e / r, s / t;
      assert p * r == e && z * t == s;
      Ratio(p, z, r * t);
      assert p * (r * t) == e * t && z * (r * t) == s * r;
    }

    lemma Ratio(p: real, z: real, m: real)
      ensures m > 0.0 ==> (p > z <==> p * m > z * m)
    {
      assert (p - z) * m == p * m - z * m;
    }

    /** What a finished run has established about its intervals and its answer. */
    ghost predicate Answered(summed: bool)
      reads this, alist, blist, rlist, elist, iord
    {
      && (last == 0 <==> q.Invalid())
      && (last == 0 ==> ier == 6 && result == 0.0 && abserr == 0.0 && neval == 0)
      && (last >= 1 ==> Valid())
      && (last == 1 ==> summed && q.FirstFlag(ier) && (ier != 0 || q.FirstIsEnough()) && neval == 21)
      && (last >= 2 ==> q.FirstFlag(0) && !q.FirstIsEnough())
      && (last >= 2 ==> exists flag :: q.Ends(history, Now(), iord[1], calls, flag) && Concluded(flag, summed))
      && (summed && last >= 1 ==> result == SumTo(rlist[..], last) && abserr == SumTo(elist[..], last))
      && (!summed ==> last >= 2)
      && (ier == 0 ==> abserr <= q.Bound(result))
      && (ier == 1 ==> last == q.limit)
      && ier in {0, 1, 2, 4, 5, 6}
    }

    /** The routine rdqagse. */
    method Integrate() returns (summed: bool)
      requires Arrays()
      modifies this, alist, blist, rlist, elist, iord
      ensures Answered(summed)
    {
      hide *;
      var accepted := FirstEstimate();
      if accepted {
        AnsweredAtOnce();
        return true;
      }
      FirstWas();
      Begin();
      var exit := Iterate();
      EndedWell(exit);
      ghost var flag := ier;
      summed := Finish(exit);
      AnsweredBy(flag, summed);
    }

    lemma FirstWas()
      requires Tested()
      ensures last != 0 && q.FirstFlag(ier) && ksgn == q.Sign() && defabs == q.rule(q.a, q.b).resabs
    {
      hide Ready;
    }

    lemma AnsweredAtOnce()
      requires last == 0 <==> q.Invalid()
      requires last == 0 ==> ier == 6 && result == 0.0 && abserr == 0.0 && neval == 0
      requires last != 0 ==> Tested() && (ier != 0 || q.FirstIsEnough()) && neval == 21
      requires ier == 0 ==> abserr <= q.Bound(result)
      ensures Answered(true)
    {
      hide Problem.Invalid, Problem.FirstIsEnough, Problem.Bound, Valid;
      if last != 0 {
        ErrorsAreSummed();
      }
    }

    lemma AnsweredBy(flag: nat, summed: bool)
      requires Valid() && last >= 2 && q.Ends(history, Now(), iord[1], calls, flag) && Concluded(flag, summed)
      requires flag in {0, 1, 2, 4, 5} && (flag == 1 ==> last == q.limit)
      requires !q.Invalid() && q.FirstFlag(0) && !q.FirstIsEnough()
      requires summed ==> result == area && abserr == errsum
      requires ier == 0 ==> abserr <= q.Bound(result)
      ensures Answered(summed)
    {
      hide Problem.Invalid, Problem.FirstIsEnough, Problem.FirstFlag, Problem.Bound, Problem.Ends, Valid;
      hide Problem.Diverges, Problem.PrefersSum;
      ErrorsAreSummed();
    }

    /** What is set before the main loop. */
    method Begin()
      requires Tested() && ier == 0 && Cleared()
      modifies `abserr
      ensures GoesOn()
    {
      hide Ordered, Consistent, Problem.Recorded, Problem.Sign, Partition;
      abserr := q.oflow;
    }

    /** The flag that a loop ends with. */
    lemma EndedWell(exit: Exit)
      requires Ended(exit)
      ensures Valid() && last >= 2 && q.Ends(history, Now(), iord[1], calls, ier)
      ensures ier in {0, 1, 2, 4, 5} && (ier == 1 ==> last == q.limit)
    {
      assert q.CutRight(history, Now(), |history| - 1);
    }
  }
}
