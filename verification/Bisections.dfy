/** The cuts that rdqagse makes, and when a run may go on or has to end. */
module Bisections {
  import opened Basics
  import opened ErrorList

  /** What the rule returns for an interval. */
  datatype Estimate = Estimate(result: real, abserr: real, resabs: real, resasc: real)

  type Rule = (real, real) -> Estimate

  /** What one call of the extrapolation routine returns. */
  datatype Extrapolated = Extrapolated(numrl2: int, reseps: real, abseps: real)

  /** s[1] + ... + s[n]. */
  function SumTo(s: seq<real>, n: nat): real
    requires n < |s|
  {
    if n == 0 then 0.0 else SumTo(s, n - 1) + s[n]
  }

  lemma {:induction false} SumSame(s: seq<real>, t: seq<real>, n: nat)
    requires n < |s| && n < |t| && forall i :: 1 <= i <= n ==> s[i] == t[i]
    ensures SumTo(s, n) == SumTo(t, n)
  {
    if n > 0 {
      SumSame(s, t, n - 1);
    }
  }

  /** Replacing entry k and appending an entry. */
  lemma {:induction false} SumReplace(s: seq<real>, t: seq<real>, n: nat, k: nat)
    requires n < |s| && n < |t| && 1 <= k <= n
    requires forall i :: 1 <= i <= n && i != k ==> s[i] == t[i]
    ensures SumTo(t, n) == SumTo(s, n) - s[k] + t[k]
  {
    if k < n {
      SumReplace(s, t, n - 1, k);
    } else {
      SumSame(s, t, n - 1);
    }
  }

  /** chain lists the interval numbers 1..last, each once. */
  ghost predicate Listing(chain: seq<int>, last: nat) {
    && |chain| == last >= 1
    && InRange(chain, last) && Distinct(chain)
    && (forall k :: 1 <= k <= last ==> k in chain)
  }

  /** In the order of chain the intervals lead from a to b without a gap. */
  ghost predicate Linked(alist: seq<real>, blist: seq<real>, chain: seq<int>, a: real, b: real)
    requires forall i :: 0 <= i < |chain| ==> 0 <= chain[i] < |alist| && chain[i] < |blist|
  {
    && chain != []
    && alist[chain[0]] == a && blist[chain[|chain| - 1]] == b
    && (forall i :: 0 < i < |chain| ==> blist[chain[i - 1]] == alist[chain[i]])
  }

  ghost predicate Partition(alist: seq<real>, blist: seq<real>, last: nat, chain: seq<int>, a: real, b: real) {
    && last < |alist| && last < |blist|
    && Listing(chain, last)
    && Linked(alist, blist, chain, a, b)
    && (a < b ==> forall k :: 1 <= k <= last ==> alist[k] < blist[k])
  }

  /** The chain after the interval at position p has been cut: left and right take its place. */
  ghost function Cut(chain: seq<int>, p: nat, left: int, right: int): (c: seq<int>)
    requires p < |chain|
    ensures |c| == |chain| + 1
    ensures forall i :: 0 <= i < |c| ==>
      c[i] == if i < p then chain[i] else if i == p then left else if i == p + 1 then right else chain[i - 1]
  {
    chain[..p] + [left, right] + chain[p + 1..]
  }

  lemma CutDistinct(chain: seq<int>, last: nat, p: nat, left: int, right: int)
    requires Listing(chain, last) && p < last
    requires (left == chain[p] && right == last + 1) || (left == last + 1 && right == chain[p])
    ensures Distinct(Cut(chain, p, left, right))
  {
    var c := Cut(chain, p, left, right);
    forall i, j | 0 <= i < j < |c| ensures c[i] != c[j] {
      var i', j' := if i <= p then i else i - 1, if j <= p then j else j - 1;
      assert i' < j' ==> chain[i'] != chain[j'];
    }
  }

  lemma CutListing(chain: seq<int>, last: nat, p: nat, left: int, right: int)
    requires Listing(chain, last) && p < last
    requires (left == chain[p] && right == last + 1) || (left == last + 1 && right == chain[p])
    ensures Listing(Cut(chain, p, left, right), last + 1)
  {
    var c := Cut(chain, p, left, right);
    CutDistinct(chain, last, p, left, right);
    hide Distinct;
    forall k | 1 <= k <= last + 1 ensures k in c {
      if k <= last && k != chain[p] {
        assert k in chain;
        var i :| 0 <= i < |chain| && chain[i] == k;
        assert c[if i < p then i else i + 1] == k;
      } else {
        assert c[p] == k || c[p + 1] == k;
      }
    }
  }

  lemma CutLinked(al: seq<real>, bl: seq<real>, al': seq<real>, bl': seq<real>, last: nat, chain: seq<int>, p: nat,
                  left: int, right: int, a: real, b: real)
    requires Listing(chain, last) && last + 1 < |al'| && last + 1 < |bl'| && last < |al| && last < |bl|
    requires Linked(al, bl, chain, a, b) && p < last
    requires 1 <= left <= last + 1 && 1 <= right <= last + 1
    requires forall k :: 1 <= k <= last && k != chain[p] ==> al'[k] == al[k] && bl'[k] == bl[k]
    requires al'[left] == al[chain[p]] && bl'[right] == bl[chain[p]] && bl'[left] == al'[right]
    ensures Linked(al', bl', Cut(chain, p, left, right), a, b)
  {
    var c := Cut(chain, p, left, right);
    forall i | 0 <= i < |chain| && i != p ensures al'[chain[i]] == al[chain[i]] && bl'[chain[i]] == bl[chain[i]] {
      assert chain[i] != chain[p];
    }
    forall i | 0 < i < |c| ensures bl'[c[i - 1]] == al'[c[i]] {
      if i <= p {
        assert bl[chain[i - 1]] == al[chain[i]];
      } else if i > p + 1 {
        assert bl[chain[i - 2]] == al[chain[i - 1]];
      }
    }
  }

  lemma CutPartition(al: seq<real>, bl: seq<real>, al': seq<real>, bl': seq<real>, last: nat, chain: seq<int>, p: nat,
                     left: int, right: int, a: real, b: real)
    requires Partition(al, bl, last, chain, a, b) && p < |chain|
    requires last + 1 < |al'| && last + 1 < |bl'|
    requires (left == chain[p] && right == last + 1) || (left == last + 1 && right == chain[p])
    requires forall k :: 1 <= k <= last && k != chain[p] ==> al'[k] == al[k] && bl'[k] == bl[k]
    requires al'[left] == al[chain[p]] && bl'[right] == bl[chain[p]] && bl'[left] == al'[right]
    requires a < b ==> al'[left] < bl'[left] && al'[right] < bl'[right]
    ensures Partition(al', bl', last + 1, Cut(chain, p, left, right), a, b)
  {
    CutListing(chain, last, p, left, right);
    CutLinked(al, bl, al', bl', last, chain, p, left, right, a, b);
  }

  const EPMACH: real := 1.0 / 4503599627370496.0

  /** The ends of the intervals, and what the rule has returned for them. */
  datatype Lists = Lists(al: seq<real>, bl: seq<real>, rl: seq<real>, el: seq<real>)

  /** One cut: the intervals 1..count before it, the one that is cut, and the extrapolations made so far. */
  datatype Bisection = Bisection(before: Lists, chosen: int, count: nat, calls: nat)

  ghost predicate LargestChosen(s: Bisection) {
    && 1 <= s.chosen <= s.count < |s.before.el|
    && forall k :: 1 <= k <= s.count ==> s.before.el[k] <= s.before.el[s.chosen]
  }

  /** Intervals 1..last carry the estimates of the rule. */
  ghost predicate Estimated(rule: Rule, l: Lists, last: nat) {
    && last < |l.al| && last < |l.bl| && last < |l.rl| && last < |l.el|
    && forall k :: 1 <= k <= last ==>
      l.rl[k] == rule(l.al[k], l.bl[k]).result && l.el[k] == rule(l.al[k], l.bl[k]).abserr
  }

  /** What each bisection keeps; chain says how the intervals lie on the line. */
  ghost predicate Consistent(q: Problem, l: Lists, last: nat, chain: seq<int>, area: real, errsum: real) {
    && Partition(l.al, l.bl, last, chain, q.a, q.b)
    && Estimated(q.rule, l, last)
    && area == SumTo(l.rl, last) && errsum == SumTo(l.el, last)
  }

  /** Interval k is cut at its midpoint; the half with the larger error stays at k, the other is number n. */
  ghost predicate HalvesStored(rule: Rule, l: Lists, l': Lists, k: int, n: int) {
    && 1 <= k < n && n < |l.al| && |l.al| == |l.bl| == |l.rl| == |l.el| == |l'.al| == |l'.bl| == |l'.rl| == |l'.el|
    && (forall i :: 1 <= i < n && i != k ==>
      l'.al[i] == l.al[i] && l'.bl[i] == l.bl[i] && l'.rl[i] == l.rl[i] && l'.el[i] == l.el[i])
    && var mid := (l.al[k] + l.bl[k]) * 0.5;
      var left := if rule(mid, l.bl[k]).abserr > rule(l.al[k], mid).abserr then n else k;
      var right := if left == k then n else k;
      && l'.al[left] == l.al[k] && l'.bl[left] == mid && l'.al[right] == mid && l'.bl[right] == l.bl[k]
      && l'.rl[left] == rule(l.al[k], mid).result && l'.el[left] == rule(l.al[k], mid).abserr
      && l'.rl[right] == rule(mid, l.bl[k]).result && l'.el[right] == rule(mid, l.bl[k]).abserr
  }

  lemma Position(al: seq<real>, bl: seq<real>, last: nat, chain: seq<int>, a: real, b: real, k: int) returns (p: nat)
    requires Partition(al, bl, last, chain, a, b) && 1 <= k <= last
    ensures p < |chain| && chain[p] == k
  {
    assert k in chain;
    p :| p < |chain| && chain[p] == k;
  }

  lemma CutConsistent(q: Problem, l: Lists, last: nat, chain: seq<int>, area: real, errsum: real, k: int, l': Lists)
    returns (chain': seq<int>)
    requires Consistent(q, l, last, chain, area, errsum) && HalvesStored(q.rule, l, l', k, last + 1)
    ensures Consistent(q, l', last + 1, chain', area + (l'.rl[k] + l'.rl[last + 1]) - l.rl[k],
                       errsum + (l'.el[k] + l'.el[last + 1]) - l.el[k])
    ensures l'.el[k] >= l'.el[last + 1]
  {
    var mid := (l.al[k] + l.bl[k]) * 0.5;
    var left := if q.rule(mid, l.bl[k]).abserr > q.rule(l.al[k], mid).abserr then last + 1 else k;
    var right := if left == k then last + 1 else k;
    var p := Position(l.al, l.bl, last, chain, q.a, q.b, k);
    assert q.a < q.b ==> l.al[k] < l.bl[k];
    hide Partition, Cut;
    CutPartition(l.al, l.bl, l'.al, l'.bl, last, chain, p, left, right, q.a, q.b);
    chain' := Cut(chain, p, left, right);
    SumReplace(l.rl, l'.rl, last, k);
    SumReplace(l.el, l'.el, last, k);
  }

  // ----- when a run goes on and when it ends -----

  /** The arguments of rdqagse, the answers of the extrapolation routine, and the range of the numbers. */
  datatype Problem = Problem(rule: Rule, extrapolation: nat -> Extrapolated, a: real, b: real, epsabs: real,
                             epsrel: real, limit: nat, uflow: real, oflow: real)
  {
    /** The requested accuracy for a result r. */
    function Bound(r: real): real {
      Max(epsabs, epsrel * Abs(r))
    }

    /** The sums over the intervals 1..n are as accurate as requested. */
    ghost predicate Met(l: Lists, n: nat)
      requires n < |l.rl| && n < |l.el|
    {
      SumTo(l.el, n) <= Bound(SumTo(l.rl, n))
    }

    /** The tests on roundoff are made: for neither half is the error the plain difference from the mean. */
    predicate Counts(left: Estimate, right: Estimate) {
      left.resasc != left.abserr && right.resasc != right.abserr
    }

    /** The halves together give the same result as the whole, but no smaller error. */
    predicate NoGain(whole: real, error: real, left: Estimate, right: Estimate) {
      && Counts(left, right)
      && Abs(whole - (left.result + right.result)) <= Abs(left.result + right.result) * 0.00001
      && left.abserr + right.abserr >= error * 0.99
    }

    /** The halves together have the larger error. */
    predicate Grows(error: real, left: Estimate, right: Estimate) {
      Counts(left, right) && left.abserr + right.abserr > error
    }

    /** An interval that can hardly be told from its midpoint. */
    predicate BadSpot(lo: real, hi: real) {
      Max(Abs(lo), Abs(hi)) <= (EPMACH * 100.0 + 1.0) * (Abs((lo + hi) * 0.5) + uflow * 1000.0)
    }

    ghost predicate Known(s: Bisection) {
      1 <= s.chosen <= s.count < |s.before.al| == |s.before.bl| == |s.before.rl| == |s.before.el|
    }

    ghost predicate CutWithoutGain(s: Bisection) {
      Known(s) &&
      var lo, hi := s.before.al[s.chosen], s.before.bl[s.chosen];
      var mid := (lo + hi) * 0.5;
      NoGain(s.before.rl[s.chosen], s.before.el[s.chosen], rule(lo, mid), rule(mid, hi))
    }

    ghost predicate CutThatGrows(s: Bisection) {
      Known(s) && s.count + 1 > 10 &&
      var lo, hi := s.before.al[s.chosen], s.before.bl[s.chosen];
      var mid := (lo + hi) * 0.5;
      Grows(s.before.el[s.chosen], rule(lo, mid), rule(mid, hi))
    }

    ghost predicate CutAtBadSpot(s: Bisection) {
      Known(s) && BadSpot(s.before.al[s.chosen], s.before.bl[s.chosen])
    }

    /** The cuts so far that point to roundoff. */
    ghost function WithoutGain(h: seq<Bisection>): set<int> {
      set i | 0 <= i < |h| && CutWithoutGain(h[i])
    }

    ghost function Growing(h: seq<Bisection>): set<int> {
      set i | 0 <= i < |h| && CutThatGrows(h[i])
    }

    ghost predicate Roundoff(h: seq<Bisection>) {
      |WithoutGain(h)| >= 10 || |Growing(h)| >= 20
    }

    /** The flag that the cuts h set: 4, 1 and 2 for these reasons in this order, and otherwise 0. */
    ghost predicate FlagIs(h: seq<Bisection>, flag: nat)
      requires h != []
    {
      var s := h[|h| - 1];
      && flag in {0, 1, 2, 4}
      && (flag == 4 <==> CutAtBadSpot(s))
      && (flag == 1 <==> s.count + 1 == limit && flag != 4)
      && (flag == 2 <==> Roundoff(h) && flag != 4 && flag != 1)
    }

    /** The least error of the first c extrapolations, or oflow. */
    ghost function BestError(c: nat): (e: real) {
      if c == 0 then oflow else if extrapolation(c).abseps < BestError(c - 1) then extrapolation(c).abseps
      else BestError(c - 1)
    }

    /** The result that goes with it, or the first estimate. */
    ghost function BestResult(c: nat): real {
      if c == 0 then rule(a, b).result
      else if extrapolation(c).abseps < BestError(c - 1) then extrapolation(c).reseps
      else BestResult(c - 1)
    }

    /** Before extrapolation c five others in a row have brought nothing, though the error was small by then. */
    ghost predicate Stale(c: nat, errsum: real) {
      c >= 6 && BestError(c - 1) == BestError(c - 6) && BestError(c - 1) < errsum * 0.001
    }

    /** Extrapolation c is the best one so far, and good enough. */
    ghost predicate Accepts(c: nat)
      requires c >= 1
    {
      extrapolation(c).abseps < BestError(c - 1) && extrapolation(c).abseps <= Bound(extrapolation(c).reseps)
    }

    /** An extrapolation has left nothing to extrapolate from. */
    ghost predicate Over(c: nat) {
      exists d :: 1 <= d <= c && extrapolation(d).numrl2 == 1
    }

    /** The width below which intervals are small; it is halved with each extrapolation. */
    ghost function Small(c: nat): real {
      if c == 0 then Abs(b - a) * 0.375 else Small(c - 1) * 0.5
    }

    /** After c extrapolations there is one more if there are n >= 3 intervals and the next to be cut, k, is small. */
    ghost predicate Due(l: Lists, n: nat, k: int, c: nat) {
      n >= 3 && !Over(c) && 1 <= k < |l.al| == |l.bl| && Abs(l.bl[k] - l.al[k]) <= Small(c)
    }

    /** After the cuts h, the run goes on from the intervals l with k as the next to be cut. */
    ghost predicate MayGoOn(h: seq<Bisection>, l: Lists, k: int, calls: nat) {
      if h == [] then calls == 0
      else
        var n, c := |h| + 1, h[|h| - 1].calls;
        && n < |l.rl| && n < |l.el| && !Met(l, n) && FlagIs(h, 0)
        && (if Due(l, n, k, c) then calls == c + 1 && !Stale(calls, SumTo(l.el, n)) && !Accepts(calls) else calls == c)
    }

    /** After the cuts h, the run is over with this flag; k would have been the next interval. */
    ghost predicate Ends(h: seq<Bisection>, l: Lists, k: int, calls: nat, flag: nat) {
      h != [] &&
      var n, c := |h| + 1, h[|h| - 1].calls;
      n < |l.rl| && n < |l.el| &&
      if Met(l, n) || !FlagIs(h, 0) then FlagIs(h, flag) && calls == c
      else
        && Due(l, n, k, c) && calls == c + 1
        && (Stale(calls, SumTo(l.el, n)) || Accepts(calls))
        && flag == if Stale(calls, SumTo(l.el, n)) then 5 else 0
    }

    /** The intervals after i cuts; l are those after the last. */
    ghost function ListsAfter(h: seq<Bisection>, l: Lists, i: nat): Lists {
      if i < |h| then h[i].before else l
    }

    ghost predicate IsWhole(l: Lists) {
      && 1 < |l.al| == |l.bl| == |l.rl| == |l.el|
      && l.al[1] == a && l.bl[1] == b && l.rl[1] == rule(a, b).result && l.el[1] == rule(a, b).abserr
    }

    ghost predicate CutRight(h: seq<Bisection>, l: Lists, i: nat)
      requires i < |h|
    {
      && h[i].count == i + 1 && LargestChosen(h[i])
      && HalvesStored(rule, h[i].before, ListsAfter(h, l, i + 1), h[i].chosen, i + 2)
      && MayGoOn(h[..i], h[i].before, h[i].chosen, h[i].calls)
    }

    /** The cuts lead from the whole interval to the intervals l; before each of them the run had a reason to go on. */
    ghost predicate Recorded(h: seq<Bisection>, l: Lists) {
      IsWhole(ListsAfter(h, l, 0)) && forall i :: 0 <= i < |h| ==> CutRight(h, l, i)
    }

    // ----- the first estimate and the last tests -----

    ghost predicate Invalid() {
      epsabs <= 0.0 && epsrel < Max(EPMACH * 50.0, 0.00000000000000000000000000005)
    }

    /** The flag of the first estimate. */
    ghost predicate FirstFlag(flag: nat) {
      var first := rule(a, b);
      && flag in {0, 1, 2}
      && (flag == 1 <==> limit == 1)
      && (flag == 2 <==>
        first.abserr <= EPMACH * 100.0 * first.resabs && first.abserr > Bound(first.result) && flag != 1)
    }

    ghost predicate FirstIsEnough() {
      var first := rule(a, b);
      (first.abserr <= Bound(first.result) && first.abserr != first.resasc) || first.abserr == 0.0
    }

    /** Whether the integrand keeps its sign, as far as the first estimate shows. */
    ghost function Sign(): int {
      if Abs(rule(a, b).result) >= (1.0 - EPMACH * 50.0) * rule(a, b).resabs then 1 else -1
    }

    /** The plain sum has the smaller relative error. */
    ghost predicate PrefersSum(result: real, abserr: real, area: real, errsum: real) {
      if result == 0.0 || area == 0.0 then abserr > errsum else abserr * Abs(area) > errsum * Abs(result)
    }

    /** Extrapolation and sum are far apart, or the sum is less than its error. */
    ghost predicate Diverges(result: real, area: real, errsum: real) {
      && !(Sign() == -1 && Abs(result) <= rule(a, b).resabs * 0.01 && Abs(area) <= rule(a, b).resabs * 0.01)
      && (if area == 0.0 then result != 0.0 || errsum > 0.0
        else !(0.01 <= result / area <= 100.0) || errsum > Abs(area))
    }

    lemma RecordMore(h: seq<Bisection>, s: Bisection, l: Lists)
      requires Recorded(h, s.before) && s.count == |h| + 1 && LargestChosen(s)
      requires HalvesStored(rule, s.before, l, s.chosen, s.count + 1) && MayGoOn(h, s.before, s.chosen, s.calls)
      ensures Recorded(h + [s], l)
    {
      hide LargestChosen, HalvesStored, MayGoOn, IsWhole;
      var g := h + [s];
      forall i | 0 <= i < |g| ensures CutRight(g, l, i) {
        if i < |h| {
          assert CutRight(h, s.before, i) && g[..i] == h[..i];
          assert ListsAfter(g, l, i + 1) == ListsAfter(h, s.before, i + 1);
        } else {
          assert g[..i] == h;
        }
      }
    }

    lemma OneMoreWithoutGain(h: seq<Bisection>, s: Bisection)
      ensures |WithoutGain(h + [s])| == |WithoutGain(h)| + if CutWithoutGain(s) then 1 else 0
    {
      hide CutWithoutGain;
      var before, after := WithoutGain(h), WithoutGain(h + [s]);
      assert |h| !in before;
      assert after == if CutWithoutGain(s) then before + {|h|} else before;
    }

    lemma OneMoreGrowing(h: seq<Bisection>, s: Bisection)
      ensures |Growing(h + [s])| == |Growing(h)| + if CutThatGrows(s) then 1 else 0
    {
      hide CutThatGrows;
      var before, after := Growing(h), Growing(h + [s]);
      assert |h| !in before;
      assert after == if CutThatGrows(s) then before + {|h|} else before;
    }

    /** The least error never grows. */
    lemma {:induction false} BestErrorFalls(c: nat, d: nat)
      requires c <= d
      ensures BestError(d) <= BestError(c)
      decreases d
    {
      if c < d {
        BestErrorFalls(c, d - 1);
      }
    }
  }
}
