/** The order in which cauchy takes the breakpoints, as a function of the list that it makes of them. */
module PassingOrder {
  import opened BreakpointHeap

  /** Where the first of the least of the first k entries stands. */
  function LeastIndex(b: seq<Break>, k: nat): (i: nat)
    requires 1 <= k <= |b|
    ensures i < k
  {
    if k == 1 then 0 else
      var i := LeastIndex(b, k - 1);
      if b[k - 1].at < b[i].at then k - 1 else i
  }

  ghost predicate FirstOfLeast(b: seq<Break>, k: nat, i: nat)
    requires k <= |b|
  {
    i < k && forall j :: 0 <= j < k ==> b[i].at <= b[j].at && (j < i ==> b[i].at < b[j].at)
  }

  lemma {:induction false} LeastIndexIsFirst(b: seq<Break>, k: nat)
    requires 1 <= k <= |b|
    ensures FirstOfLeast(b, k, LeastIndex(b, k))
  {
    if k > 1 {
      LeastIndexIsFirst(b, k - 1);
    }
  }

  lemma FirstOfLeastIsIndex(b: seq<Break>, i: nat)
    requires |b| > 0 && FirstOfLeast(b, |b|, i)
    ensures i == LeastIndex(b, |b|)
  {
    LeastIndexIsFirst(b, |b|);
    var j := LeastIndex(b, |b|);
    assert b[i].at <= b[j].at && b[j].at <= b[i].at;
  }

  /** The last entry takes the place of entry i. */
  function WithoutGap(b: seq<Break>, i: nat): (r: seq<Break>)
    requires i < |b|
    ensures |r| == |b| - 1
  {
    b[i := b[|b| - 1]][..|b| - 1]
  }

  /** One by one the entries that hpsolb puts last. */
  function Drain(b: seq<Break>, build: bool): (r: seq<Break>)
    ensures |r| == |b|
    decreases |b|
  {
    if b == [] then [] else
      var h := Solved(b, build);
      [h[|b| - 1]] + Drain(h[..|b| - 1], false)
  }

  /** First the first of the least entries, without the heap, then the others. */
  function Order(b: seq<Break>): (r: seq<Break>)
    ensures |r| == |b|
  {
    if b == [] then [] else
      var i := LeastIndex(b, |b|);
      [b[i]] + Drain(WithoutGap(b, i), true)
  }

  // ----- the order is ascending, and one of the same entries -----

  /** The first k entries are a heap, and the entries are those in all. */
  ghost predicate HeapOf(b: seq<Break>, k: int, all: multiset<Break>) {
    IsHeap(b, k) && multiset(b) == all
  }

  lemma {:induction false} LiftedIsHeap(b: seq<Break>, k: int, i: int, x: Break, all: multiset<Break>)
    requires 1 <= i <= k <= |b| && Rising(b, k, i, x, all)
    ensures HeapOf(Lifted(b, i, x), k, all)
    decreases i
  {
    hide Rising, IsHeap;
    if i > 1 && x.at < b[i / 2 - 1].at {
      RiseOnce(b, k, i, x, all);
      LiftedIsHeap(b[i - 1 := b[i / 2 - 1]], k, i / 2, x, all);
    } else {
      Risen(b, k, i, x, all);
    }
  }

  lemma {:induction false} HeapedIsHeap(b: seq<Break>, k: int)
    requires 0 <= k <= |b|
    ensures HeapOf(Heaped(b, k), k, multiset(b))
    decreases k
  {
    if k >= 2 {
      hide Rising, Lifted;
      var c := Heaped(b, k - 1);
      HeapedIsHeap(b, k - 1);
      StartsToRise(c, k);
      LiftedIsHeap(c, k, k, c[k - 1], multiset(b));
    }
  }

  lemma {:induction false} LoweredIsHeap(b: seq<Break>, i: int, x: Break, least: Break, all: multiset<Break>)
    requires Sinking(b, i, x, least, all)
    ensures 1 <= i <= |b| - 1 && HeapOf(Lowered(b, i)[|b| - 1 := least], |b| - 1, all)
    decreases |b| - i
  {
    hide IsHeap, Child, Lowered;
    HoleKeeps(b, i, x, least, all);
    hide Sinking;
    var j := Child(b, i);
    if j == 0 {
      Sunk(b, i, x, least, all);
      HoleFilled(b, i, x, least, all);
    } else {
      hide HeapOf;
      SinkOnce(b, i, x, least, all);
      LoweredIsHeap(b[i - 1 := b[j - 1]], j, x, least, all);
    }
  }

  /** x is a least one of all. */
  ghost predicate LeastOf(x: Break, all: multiset<Break>) {
    x in all && forall y :: y in all ==> x.at <= y.at
  }

  /** hpsolb puts a least entry last, and leaves a heap before it. */
  ghost predicate LeastLast(h: seq<Break>, all: multiset<Break>) {
    HeapOf(h, |h| - 1, all) && (h != [] ==> LeastOf(h[|h| - 1], all))
  }

  lemma HeapStartsLeast(h: seq<Break>)
    requires h != [] && IsHeap(h, |h|)
    ensures LeastOf(h[0], multiset(h))
  {
    forall y | y in multiset(h) ensures h[0].at <= y.at {
      var i :| 0 <= i < |h| && h[i] == y;
      FirstIsLeast(h, |h|, i + 1);
    }
  }

  lemma SolvedFromHeap(h: seq<Break>)
    requires |h| >= 2 && IsHeap(h, |h|)
    ensures LeastLast(Lowered(h, 1)[|h| - 1 := h[0]], multiset(h))
  {
    hide Lowered, IsHeap, Sinking, HeapOf, LeastOf;
    StartsToSink(h);
    LoweredIsHeap(h, 1, h[|h| - 1], h[0], multiset(h));
    HeapStartsLeast(h);
  }

  lemma SolvedIsRight(b: seq<Break>, build: bool)
    requires build || IsHeap(b, |b|)
    ensures LeastLast(Solved(b, build), multiset(b))
  {
    hide Heaped, Lowered, IsHeap;
    HeapedIsHeap(b, |b|);
    var h := if build then Heaped(b, |b|) else b;
    if |b| >= 2 {
      hide LeastLast;
      SolvedFromHeap(h);
    } else {
      SmallHeap(h);
    }
  }

  lemma SmallHeap(h: seq<Break>)
    requires |h| <= 1
    ensures LeastLast(h, multiset(h))
  {
  }

  lemma SplitLast(h: seq<Break>)
    requires h != []
    ensures multiset(h) == multiset(h[..|h| - 1]) + multiset{h[|h| - 1]}
  {
    assert h == h[..|h| - 1] + [h[|h| - 1]];
  }

  ghost predicate Ascending(b: seq<Break>) {
    forall i, j :: 0 <= i < j < |b| ==> b[i].at <= b[j].at
  }

  /** r are the entries of all in ascending order. */
  ghost predicate SortedOf(r: seq<Break>, all: multiset<Break>) {
    Ascending(r) && multiset(r) == all
  }

  lemma LeastFirst(x: Break, r: seq<Break>, all: multiset<Break>)
    requires SortedOf(r, all - multiset{x}) && LeastOf(x, all)
    ensures SortedOf([x] + r, all)
  {
    forall i, j | 0 <= i < j < |[x] + r| ensures ([x] + r)[i].at <= ([x] + r)[j].at {
      if i == 0 {
        assert r[j - 1] in multiset(r);
      }
    }
  }

  lemma DrainStep(b: seq<Break>, build: bool)
    requires b != []
    ensures var h := Solved(b, build);
      Drain(b, build) == [h[|b| - 1]] + Drain(h[..|b| - 1], false)
  {
  }

  /** Without its last entry the heap is left. */
  lemma TakenLast(h: seq<Break>, all: multiset<Break>)
    requires h != [] && LeastLast(h, all)
    ensures IsHeap(h[..|h| - 1], |h| - 1)
    ensures LeastOf(h[|h| - 1], all) && multiset(h[..|h| - 1]) == all - multiset{h[|h| - 1]}
  {
    hide IsHeap, LeastOf;
    SplitLast(h);
    HeapOfPrefix(h, h[..|h| - 1], |h| - 1);
  }

  /** The last entry, and then the others in order. */
  lemma TakenSorted(h: seq<Break>, all: multiset<Break>, r: seq<Break>)
    requires h != [] && LeastLast(h, all) && SortedOf(r, multiset(h[..|h| - 1]))
    ensures SortedOf([h[|h| - 1]] + r, all)
  {
    hide IsHeap, LeastOf, SortedOf, LeastLast;
    TakenLast(h, all);
    LeastFirst(h[|h| - 1], r, all);
  }

  lemma {:induction false} DrainIsSorted(b: seq<Break>, build: bool)
    requires build || IsHeap(b, |b|)
    ensures SortedOf(Drain(b, build), multiset(b))
    decreases |b|
  {
    if b != [] {
      DrainStep(b, build);
      hide *;
      var h := Solved(b, build);
      SolvedIsRight(b, build);
      TakenLast(h, multiset(b));
      DrainIsSorted(h[..|b| - 1], false);
      TakenSorted(h, multiset(b), Drain(h[..|b| - 1], false));
    }
  }

  lemma GapContents(b: seq<Break>, i: nat)
    requires i < |b|
    ensures multiset(WithoutGap(b, i)) == multiset(b) - multiset{b[i]}
  {
    var m := |b| - 1;
    SplitLast(b);
    if i < m {
      assert b[i := b[m]][..m] == b[..m][i := b[m]];
    } else {
      assert b[i := b[m]][..m] == b[..m];
    }
  }

  lemma IndexOfLeast(b: seq<Break>)
    requires b != []
    ensures LeastOf(b[LeastIndex(b, |b|)], multiset(b))
  {
    LeastIndexIsFirst(b, |b|);
    assert forall y :: y in multiset(b) ==> y in b;
  }

  /** cauchy takes the breakpoints in ascending order, each once. */
  lemma OrderAscends(b: seq<Break>)
    ensures SortedOf(Order(b), multiset(b))
  {
    if b != [] {
      hide Drain, SortedOf, WithoutGap, LeastOf;
      var i := LeastIndex(b, |b|);
      IndexOfLeast(b);
      GapContents(b, i);
      DrainIsSorted(WithoutGap(b, i), true);
      LeastFirst(b[i], Drain(WithoutGap(b, i), true), multiset(b));
    } else {
      assert Order(b) == [];
    }
  }
}
