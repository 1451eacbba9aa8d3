/** hpsolb: the least breakpoint goes to the end, the others form a heap. */
module BreakpointHeap {

  /** A breakpoint and the variable it belongs to. */
  datatype Break = Break(at: real, variable: int)

  /** The breakpoints number 1..n; position k of the arrays is entry k - 1. */
  ghost function Breaks(t: array<real>, iorder: array<int>, n: nat): seq<Break>
    requires n < t.Length && n < iorder.Length
    reads t, iorder
  {
    seq(n, k requires 0 <= k < n reads t, iorder => Break(t[k + 1], iorder[k + 1]))
  }

  lemma BreaksAt(t: array<real>, iorder: array<int>, n: nat, k: nat)
    requires n < t.Length && n < iorder.Length && 1 <= k <= n
    ensures |Breaks(t, iorder, n)| == n && Breaks(t, iorder, n)[k - 1] == Break(t[k], iorder[k])
  {
  }

  /** What lies behind the first n entries. */
  ghost function Beyond(t: array<real>, iorder: array<int>, n: nat): (seq<real>, seq<int>)
    requires n < t.Length && n < iorder.Length
    reads t, iorder
  {
    (t[n + 1..], iorder[n + 1..])
  }

  /** Entry c is not less than its parent; the parent of position c is position c / 2. */
  ghost predicate Above(b: seq<Break>, c: int)
    requires 2 <= c <= |b|
  {
    b[c / 2 - 1].at <= b[c - 1].at
  }

  /** The first m entries are a heap. */
  ghost predicate IsHeap(b: seq<Break>, m: int) {
    m <= |b| && forall c :: 2 <= c <= m ==> Above(b, c)
  }

  /** The first entry of a heap is the least. */
  lemma {:induction false} FirstIsLeast(b: seq<Break>, m: int, k: nat)
    requires IsHeap(b, m) && 1 <= k <= m
    ensures b[0].at <= b[k - 1].at
  {
    if k > 1 {
      FirstIsLeast(b, m, k / 2);
      assert Above(b, k);
    }
  }

  lemma HeapOfPrefix(b: seq<Break>, b': seq<Break>, m: int)
    requires IsHeap(b, m) && m <= |b'| && forall k :: 0 <= k < m ==> b'[k] == b[k]
    ensures IsHeap(b', m)
  {
    forall c | 2 <= c <= m ensures Above(b', c) {
      assert Above(b, c);
    }
  }

  /** Moving entry j to i and putting x at j instead of at i does not change the contents. */
  lemma MoveKeepsContents(b: seq<Break>, i: nat, j: nat, x: Break)
    requires i < |b| && j < |b|
    ensures multiset(b[i := x]) == multiset(b[i := b[j]][j := x])
  {
    if i == j {
      assert b[i := b[j]][j := x] == b[i := x];
    } else {
      assert multiset(b[i := x]) == multiset(b) - multiset{b[i]} + multiset{x};
      assert multiset(b[i := b[j]]) == multiset(b) - multiset{b[i]} + multiset{b[j]};
      assert b[i := b[j]][j] == b[j];
    }
  }

  /** Stores a breakpoint as entry i. */
  method Put(t: array<real>, iorder: array<int>, i: nat, at: real, variable: int, ghost n: nat, ghost b: seq<Break>)
    requires 1 <= i <= n < t.Length && n < iorder.Length && b == Breaks(t, iorder, n) && |b| == n
    modifies t, iorder
    ensures Breaks(t, iorder, n) == b[i - 1 := Break(at, variable)]
    ensures forall k :: 1 <= k <= n && k != i ==> t[k] == old(t[k]) && iorder[k] == old(iorder[k])
    ensures Beyond(t, iorder, n) == old(Beyond(t, iorder, n))
  {
    t[i] := at;
    iorder[i] := variable;
  }

  // ----- what the loops do, entry by entry -----

  /** x looks for its place from entry i upwards. */
  function Lifted(b: seq<Break>, i: int, x: Break): (r: seq<Break>)
    requires 1 <= i <= |b|
    ensures |r| == |b|
    decreases i
  {
    if i > 1 && x.at < b[i / 2 - 1].at then Lifted(b[i - 1 := b[i / 2 - 1]], i / 2, x) else b[i - 1 := x]
  }

  /** The first k entries have been added one by one. */
  function Heaped(b: seq<Break>, k: int): (r: seq<Break>)
    requires k <= |b|
    ensures |r| == |b|
    decreases k
  {
    if k < 2 then b else
      var c := Heaped(b, k - 1);
      Lifted(c, k, c[k - 1])
  }

  /** The lesser child of entry i, if it is less than the last entry, or 0. */
  function Child(b: seq<Break>, i: int): (j: int)
    requires 1 <= i <= |b| - 1
    ensures j == 0 || i < j <= |b| - 1
  {
    var n := |b|;
    if 2 * i > n - 1 then 0 else
      var j := if b[2 * i].at < b[2 * i - 1].at then 2 * i + 1 else 2 * i;
      if b[j - 1].at < b[n - 1].at then j else 0
  }

  /** The hole at i moves down, and the last entry goes there. */
  function Lowered(b: seq<Break>, i: int): (r: seq<Break>)
    requires 1 <= i <= |b| - 1
    ensures |r| == |b|
    decreases |b| - i
  {
    var j := Child(b, i);
    if j == 0 then b[i - 1 := b[|b| - 1]] else Lowered(b[i - 1 := b[j - 1]], j)
  }

  lemma LoweredStep(b: seq<Break>, i: int)
    requires 1 <= i <= |b| - 1
    ensures var j := Child(b, i);
      Lowered(b, i) == if j == 0 then b[i - 1 := b[|b| - 1]] else Lowered(b[i - 1 := b[j - 1]], j)
  {
  }

  /** What hpsolb makes of the entries. */
  function Solved(b: seq<Break>, build: bool): (r: seq<Break>)
    ensures |r| == |b|
  {
    var h := if build then Heaped(b, |b|) else b;
    if |b| < 2 then h else Lowered(h, 1)[|b| - 1 := h[0]]
  }

  // ----- adding an entry -----

  /** The first m entries would be a heap but that the entry at i may be less than its parent. */
  ghost predicate RisingAt(b: seq<Break>, m: int, i: int) {
    && 1 <= i <= m <= |b|
    && (forall c :: 2 <= c <= m && c != i ==> Above(b, c))
    && (forall c :: 2 <= c <= m && c / 2 == i && i > 1 ==> b[i / 2 - 1].at <= b[c - 1].at)
  }

  lemma RiseStep(b: seq<Break>, m: int, i: int, x: Break)
    requires 2 <= i <= m <= |b| && RisingAt(b[i - 1 := x], m, i) && x.at < b[i / 2 - 1].at
    ensures RisingAt(b[i - 1 := b[i / 2 - 1]][i / 2 - 1 := x], m, i / 2)
  {
    var h, h', j := b[i - 1 := x], b[i - 1 := b[i / 2 - 1]][i / 2 - 1 := x], i / 2;
    assert j < i;
    forall c | 2 <= c <= m && c != j ensures Above(h', c) {
      if c == i {
      } else if c / 2 == i {
        assert h[i / 2 - 1].at <= h[c - 1].at;
      } else {
        assert Above(h, c);
      }
    }
    forall c | 2 <= c <= m && c / 2 == j && j > 1 ensures h'[j / 2 - 1].at <= h'[c - 1].at {
      assert Above(h, j);
      if c != i {
        assert Above(h, c);
      }
    }
  }

  lemma RisenIsHeap(b: seq<Break>, m: int, i: int)
    requires RisingAt(b, m, i) && (i > 1 ==> b[i / 2 - 1].at <= b[i - 1].at)
    ensures IsHeap(b, m)
  {
    forall c | 2 <= c <= m ensures Above(b, c) {
    }
  }

  lemma StartsRising(b: seq<Break>, k: int)
    requires 1 <= k <= |b| && IsHeap(b, k - 1)
    ensures RisingAt(b, k, k)
  {
  }

  /** Moves the parent of entry i to place i. */
  method MoveDown(t: array<real>, iorder: array<int>, i: nat, ghost n: nat, ghost b: seq<Break>)
    requires 2 <= i <= n < t.Length && n < iorder.Length && b == Breaks(t, iorder, n)
    modifies t, iorder
    ensures |b| == n && Breaks(t, iorder, n) == b[i - 1 := b[i / 2 - 1]]
    ensures Beyond(t, iorder, n) == old(Beyond(t, iorder, n))
  {
    hide Breaks, Beyond;
    var j := i / 2;
    BreaksAt(t, iorder, n, j);
    Put(t, iorder, i, t[j], iorder[j], n, b);
  }

  /** With x put at place i, the entries are those in all, and a heap but for x and its parent. */
  ghost predicate Rising(b: seq<Break>, k: int, i: int, x: Break, all: multiset<Break>) {
    1 <= i <= |b| && RisingAt(b[i - 1 := x], k, i) && multiset(b[i - 1 := x]) == all
  }

  lemma RiseOnce(b: seq<Break>, k: int, i: int, x: Break, all: multiset<Break>)
    requires 2 <= i <= k <= |b| && Rising(b, k, i, x, all) && x.at < b[i / 2 - 1].at
    ensures Rising(b[i - 1 := b[i / 2 - 1]], k, i / 2, x, all)
  {
    hide RisingAt;
    RiseStep(b, k, i, x);
    MoveKeepsContents(b, i - 1, i / 2 - 1, x);
  }

  lemma Risen(b: seq<Break>, k: int, i: int, x: Break, all: multiset<Break>)
    requires 1 <= i <= k <= |b| && Rising(b, k, i, x, all) && (i > 1 ==> b[i / 2 - 1].at <= x.at)
    ensures IsHeap(b[i - 1 := x], k) && multiset(b[i - 1 := x]) == all
  {
    hide IsHeap;
    RisenIsHeap(b[i - 1 := x], k, i);
  }

  lemma StartsToRise(b: seq<Break>, k: int)
    requires 2 <= k <= |b| && IsHeap(b, k - 1)
    ensures Rising(b, k, k, b[k - 1], multiset(b))
  {
    StartsRising(b, k);
    assert b[k - 1 := b[k - 1]] == b;
  }

  /** Adds entry k to the heap of the entries before it. */
  method AddToHeap(t: array<real>, iorder: array<int>, k: nat, ghost n: nat)
    requires 2 <= k <= n < t.Length && n < iorder.Length && IsHeap(Breaks(t, iorder, n), k - 1)
    modifies t, iorder
    ensures IsHeap(Breaks(t, iorder, n), k)
    ensures multiset(Breaks(t, iorder, n)) == multiset(old(Breaks(t, iorder, n)))
    ensures |old(Breaks(t, iorder, n))| == n
    ensures Breaks(t, iorder, n) == Lifted(old(Breaks(t, iorder, n)), k, old(Breaks(t, iorder, n))[k - 1])
    ensures Beyond(t, iorder, n) == old(Beyond(t, iorder, n))
  {
    hide Rising, IsHeap, Breaks, Beyond;
    var ddum := t[k];
    var indxin := iorder[k];
    ghost var x, b := Break(ddum, indxin), Breaks(t, iorder, n);
    ghost var all := multiset(b);
    var i := k;
    BreaksAt(t, iorder, n, k);
    StartsToRise(b, k);
    while i > 1 && ddum < t[i / 2]
      invariant 1 <= i <= k && |b| == n && b == Breaks(t, iorder, n) && Rising(b, k, i, x, all)
      invariant Lifted(b, i, x) == Lifted(old(Breaks(t, iorder, n)), k, x)
      invariant Beyond(t, iorder, n) == old(Beyond(t, iorder, n))
    {
      BreaksAt(t, iorder, n, i / 2);
      RiseOnce(b, k, i, x, all);
      MoveDown(t, iorder, i, n, b);
      b := b[i - 1 := b[i / 2 - 1]];
      i := i / 2;
    }
    if i > 1 {
      BreaksAt(t, iorder, n, i / 2);
    }
    Risen(b, k, i, x, all);
    Put(t, iorder, i, ddum, indxin, n, b);
  }

  // ----- taking the least entry -----

  /** The first m entries would be a heap but that the entry at i may be greater than its children. */
  ghost predicate SinkingAt(b: seq<Break>, m: int, i: int) {
    && 1 <= i && m <= |b| && i <= |b|
    && (forall c :: 2 <= c <= m && c / 2 != i ==> Above(b, c))
    && (forall c :: 2 <= c <= m && c / 2 == i && i > 1 ==> b[i / 2 - 1].at <= b[c - 1].at)
  }

  /** j is a least child of i among the first m entries, and less than v. */
  ghost predicate LesserChildAt(b: seq<Break>, m: int, i: int, j: int, v: real) {
    && 1 <= i && 2 <= j <= m <= |b| && j / 2 == i && i < j && b[j - 1].at < v
    && forall c :: 2 <= c <= m && c / 2 == i ==> b[j - 1].at <= b[c - 1].at
  }

  /** No child of i among the first m entries is less than v. */
  ghost predicate NoLesserChild(b: seq<Break>, m: int, i: int, v: real)
    requires m <= |b|
  {
    forall c :: 2 <= c <= m && c / 2 == i ==> v <= b[c - 1].at
  }

  lemma SinkStep(b: seq<Break>, m: int, i: int, j: int, x: Break)
    requires 1 <= i <= |b| && LesserChildAt(b, m, i, j, x.at) && SinkingAt(b[i - 1 := x], m, i)
    ensures SinkingAt(b[i - 1 := b[j - 1]][j - 1 := x], m, j)
  {
    var h, h' := b[i - 1 := x], b[i - 1 := b[j - 1]][j - 1 := x];
    forall c | 2 <= c <= m && c / 2 != j ensures Above(h', c) {
      if c / 2 == i {
        assert b[j - 1].at <= b[c - 1].at;
      } else if c == i {
        assert h[i / 2 - 1].at <= h[j - 1].at;
      } else {
        assert Above(h, c);
      }
    }
    forall c | 2 <= c <= m && c / 2 == j ensures h'[j / 2 - 1].at <= h'[c - 1].at {
      assert Above(h, c);
    }
  }

  lemma SunkIsHeap(b: seq<Break>, m: int, i: int, x: Break)
    requires 1 <= i <= |b| && 0 <= m <= |b| && SinkingAt(b[i - 1 := x], m, i) && NoLesserChild(b, m, i, x.at)
    ensures IsHeap(b[i - 1 := x], m)
  {
    var h := b[i - 1 := x];
    forall c | 2 <= c <= m ensures Above(h, c) {
      if c / 2 == i {
        assert x.at <= b[c - 1].at;
      }
    }
  }

  lemma StartsSinking(b: seq<Break>, m: int, x: Break)
    requires 1 <= m < |b| && IsHeap(b, |b|)
    ensures SinkingAt(b[0 := x], m, 1)
  {
    forall c | 2 <= c <= m && c / 2 != 1 ensures Above(b[0 := x], c) {
      assert Above(b, c);
    }
  }

  /** The child that hpsolb looks at is a least one. */
  lemma ChildIsLeast(b: seq<Break>, i: int)
    requires 1 <= i <= |b| - 1
    ensures var j, n := Child(b, i), |b|;
      if j > 0 then LesserChildAt(b, n - 1, i, j, b[n - 1].at) else NoLesserChild(b, n - 1, i, b[n - 1].at)
  {
    assert forall c :: c / 2 == i && i > 0 ==> c == 2 * i || c == 2 * i + 1;
  }

  /** Looks for a child of i, among the first n - 1 entries, that is less than the entry at n. */
  method LesserChild(t: array<real>, iorder: array<int>, n: nat, i: nat) returns (found: bool, j: nat)
    requires 1 <= i <= n - 1 && n < t.Length && n < iorder.Length
    ensures |Breaks(t, iorder, n)| == n && Child(Breaks(t, iorder, n), i) == if found then j else 0
    ensures found ==> j > 0
  {
    hide Breaks;
    BreaksAt(t, iorder, n, n);
    j := i + i;
    if j <= n - 1 {
      BreaksAt(t, iorder, n, j);
      BreaksAt(t, iorder, n, j + 1);
      if t[j + 1] < t[j] {
        j := j + 1;
      }
      if t[j] < t[n] {
        return true, j;
      }
    }
    return false, j;
  }

  /**
   * The hole is at i: with x, the last entry, put there the first |b| - 1 entries are a heap but for x and its
   * children; with least put there the entries are those in all.
   */
  ghost predicate Sinking(b: seq<Break>, i: int, x: Break, least: Break, all: multiset<Break>) {
    && 1 <= i <= |b| - 1 && b[|b| - 1] == x
    && SinkingAt(b[i - 1 := x], |b| - 1, i) && multiset(b[i - 1 := least]) == all
  }

  lemma SinkOnce(b: seq<Break>, i: int, x: Break, least: Break, all: multiset<Break>)
    requires Sinking(b, i, x, least, all) && Child(b, i) > 0
    ensures var j := Child(b, i);
      Sinking(b[i - 1 := b[j - 1]], j, x, least, all) && Lowered(b, i) == Lowered(b[i - 1 := b[j - 1]], j)
  {
    hide SinkingAt, LesserChildAt, NoLesserChild;
    var j := Child(b, i);
    ChildIsLeast(b, i);
    LoweredStep(b, i);
    hide Child, Lowered;
    SinkStep(b, |b| - 1, i, j, x);
    MoveKeepsContents(b, i - 1, j - 1, least);
  }

  lemma Sunk(b: seq<Break>, i: int, x: Break, least: Break, all: multiset<Break>)
    requires Sinking(b, i, x, least, all) && Child(b, i) == 0
    ensures IsHeap(b[i - 1 := x], |b| - 1) && Lowered(b, i) == b[i - 1 := x]
  {
    hide SinkingAt, NoLesserChild;
    ChildIsLeast(b, i);
    LoweredStep(b, i);
    SunkIsHeap(b, |b| - 1, i, x);
  }

  lemma StartsToSink(b: seq<Break>)
    requires |b| >= 2 && IsHeap(b, |b|)
    ensures Sinking(b, 1, b[|b| - 1], b[0], multiset(b))
  {
    StartsSinking(b, |b| - 1, b[|b| - 1]);
    assert b[0 := b[0]] == b;
  }

  /** Moves the lesser child j up into the hole at i. */
  method MoveUp(t: array<real>, iorder: array<int>, n: nat, i: nat, j: nat, ghost b: seq<Break>)
    requires 1 <= i <= n - 1 && 1 <= j <= n && n < t.Length && n < iorder.Length && b == Breaks(t, iorder, n)
    modifies t, iorder
    ensures |b| == n && Breaks(t, iorder, n) == b[i - 1 := b[j - 1]]
    ensures t[n] == old(t[n]) && iorder[n] == old(iorder[n])
    ensures Beyond(t, iorder, n) == old(Beyond(t, iorder, n))
  {
    hide Breaks, Beyond;
    BreaksAt(t, iorder, n, j);
    Put(t, iorder, i, t[j], iorder[j], n, b);
  }

  /** Lets the entry at n sink from the top into the hole left by the first entry. */
  method Sink(t: array<real>, iorder: array<int>, n: nat, ghost b0: seq<Break>) returns (i: nat, ghost b: seq<Break>)
    requires 2 <= n < t.Length && n < iorder.Length && b0 == Breaks(t, iorder, n) && |b0| == n && IsHeap(b0, n)
    modifies t, iorder
    ensures 1 <= i <= n - 1 && b == Breaks(t, iorder, n) && |b| == n
    ensures t[n] == old(t[n]) && iorder[n] == old(iorder[n])
    ensures Sinking(b, i, b0[n - 1], b0[0], multiset(b0))
    ensures Child(b, i) == 0 && Lowered(b, i) == Lowered(b0, 1)
    ensures Beyond(t, iorder, n) == old(Beyond(t, iorder, n))
  {
    hide Sinking, IsHeap, Breaks, Beyond, Lowered, Child;
    b := b0;
    ghost var x, least, all := b0[n - 1], b0[0], multiset(b0);
    StartsToSink(b);
    i := 1;
    var found, j := LesserChild(t, iorder, n, i);
    while found
      invariant 1 <= i <= n - 1 && |b| == n && b == Breaks(t, iorder, n) && Sinking(b, i, x, least, all)
      invariant Child(b, i) == (if found then j else 0) && (found ==> j > 0) && Lowered(b, i) == Lowered(b0, 1)
      invariant t[n] == old(t[n]) && iorder[n] == old(iorder[n])
      invariant Beyond(t, iorder, n) == old(Beyond(t, iorder, n))
      decreases n - i
    {
      SinkOnce(b, i, x, least, all);
      MoveUp(t, iorder, n, i, j, b);
      b := b[i - 1 := b[j - 1]];
      i := j;
      found, j := LesserChild(t, iorder, n, i);
    }
  }

  lemma HoleKeeps(b: seq<Break>, i: int, x: Break, least: Break, all: multiset<Break>)
    requires Sinking(b, i, x, least, all)
    ensures 1 <= i <= |b| - 1 && b[|b| - 1] == x && multiset(b[i - 1 := least]) == all
  {
  }

  /** With x in the hole and the least entry last. */
  lemma HoleFilled(b: seq<Break>, i: int, x: Break, least: Break, all: multiset<Break>)
    requires Sinking(b, i, x, least, all) && IsHeap(b[i - 1 := x], |b| - 1)
    ensures 1 <= i <= |b| - 1
    ensures IsHeap(b[i - 1 := x][|b| - 1 := least], |b| - 1) && multiset(b[i - 1 := x][|b| - 1 := least]) == all
  {
    hide IsHeap;
    HoleKeeps(b, i, x, least, all);
    hide Sinking;
    assert multiset(b[i - 1 := x][|b| - 1 := least]) == all by {
      MoveKeepsContents(b, i - 1, |b| - 1, least);
    }
    assert IsHeap(b[i - 1 := x][|b| - 1 := least], |b| - 1) by {
      HeapOfPrefix(b[i - 1 := x], b[i - 1 := x][|b| - 1 := least], |b| - 1);
    }
  }

  /** Puts the least entry last; the others stay a heap. */
  method TakeLeast(t: array<real>, iorder: array<int>, n: nat)
    requires 2 <= n < t.Length && n < iorder.Length && IsHeap(Breaks(t, iorder, n), n)
    modifies t, iorder
    ensures multiset(Breaks(t, iorder, n)) == multiset(old(Breaks(t, iorder, n)))
    ensures IsHeap(Breaks(t, iorder, n), n - 1)
    ensures Break(t[n], iorder[n]) == old(Break(t[1], iorder[1]))
    ensures Breaks(t, iorder, n) == Solved(old(Breaks(t, iorder, n)), false)
    ensures Beyond(t, iorder, n) == old(Beyond(t, iorder, n))
  {
    hide IsHeap, Breaks, Beyond, Lowered, Sinking, Child;
    var out := t[1];
    var indxou := iorder[1];
    var ddum := t[n];
    var indxin := iorder[n];
    ghost var b0, x, least := Breaks(t, iorder, n), Break(ddum, indxin), Break(out, indxou);
    BreaksAt(t, iorder, n, 1);
    BreaksAt(t, iorder, n, n);
    var i;
    ghost var b;
    i, b := Sink(t, iorder, n, b0);
    Sunk(b, i, x, least, multiset(b0));
    HoleFilled(b, i, x, least, multiset(b0));
    Put(t, iorder, i, ddum, indxin, n, b);
    Put(t, iorder, n, out, indxou, n, b[i - 1 := x]);
    BreaksAt(t, iorder, n, n);
  }

  lemma SmallIsHeap(b: seq<Break>)
    requires |b| <= 1
    ensures IsHeap(b, |b|) && IsHeap(b, |b| - 1) && Heaped(b, |b|) == b
  {
  }

  /** Makes a heap of the first n entries. */
  method BuildHeap(n: nat, t: array<real>, iorder: array<int>)
    requires n < t.Length && n < iorder.Length
    modifies t, iorder
    ensures multiset(Breaks(t, iorder, n)) == multiset(old(Breaks(t, iorder, n)))
    ensures |old(Breaks(t, iorder, n))| == n && IsHeap(Breaks(t, iorder, n), n)
    ensures Breaks(t, iorder, n) == Heaped(old(Breaks(t, iorder, n)), n)
    ensures Beyond(t, iorder, n) == old(Beyond(t, iorder, n))
  {
    ghost var b := Breaks(t, iorder, n);
    if n <= 1 {
      SmallIsHeap(b);
      return;
    }
    hide Lifted;
    var k := 2;
    while k <= n
      invariant 2 <= k <= n + 1
      invariant IsHeap(Breaks(t, iorder, n), k - 1) && |b| == |Breaks(t, iorder, n)| == n
      invariant multiset(Breaks(t, iorder, n)) == multiset(b) && Breaks(t, iorder, n) == Heaped(b, k - 1)
      invariant Beyond(t, iorder, n) == old(Beyond(t, iorder, n))
    {
      AddToHeap(t, iorder, k, n);
      k := k + 1;
    }
  }

  /** hpsolb. With iheap == 0 the first n entries are arbitrary, otherwise they are a heap. */
  method Hpsolb(n: nat, t: array<real>, iorder: array<int>, iheap: nat)
    requires n < t.Length && n < iorder.Length
    requires iheap != 0 ==> IsHeap(Breaks(t, iorder, n), n)
    modifies t, iorder
    ensures multiset(Breaks(t, iorder, n)) == multiset(old(Breaks(t, iorder, n)))
    ensures IsHeap(Breaks(t, iorder, n), n - 1)
    ensures forall k :: 1 <= k <= n ==> t[n] <= t[k]
    ensures Breaks(t, iorder, n) == Solved(old(Breaks(t, iorder, n)), iheap == 0)
    ensures Beyond(t, iorder, n) == old(Beyond(t, iorder, n))
  {
    hide Heaped, Lowered, IsHeap;
    if iheap == 0 {
      BuildHeap(n, t, iorder);
    }
    if n <= 1 {
      SmallIsHeap(Breaks(t, iorder, n));
    } else {
      ghost var b := Breaks(t, iorder, n);
      BreaksAt(t, iorder, n, 1);
      TakeLeast(t, iorder, n);
      LastIsLeast(t, iorder, n, b);
    }
  }

  lemma LastIsLeast(t: array<real>, iorder: array<int>, n: nat, b: seq<Break>)
    requires 1 <= n < t.Length && n < iorder.Length && |b| == n && IsHeap(b, n)
    requires multiset(Breaks(t, iorder, n)) == multiset(b) && Break(t[n], iorder[n]) == b[0]
    ensures forall k :: 1 <= k <= n ==> t[n] <= t[k]
  {
    hide IsHeap;
    LeastStaysLeast(b, Breaks(t, iorder, n));
    assert forall k :: 1 <= k <= n ==> t[k] == Breaks(t, iorder, n)[k - 1].at;
  }

  lemma LeastStaysLeast(b: seq<Break>, b': seq<Break>)
    requires IsHeap(b, |b|) && |b| > 0 && multiset(b) == multiset(b')
    ensures forall k :: 0 <= k < |b'| ==> b[0].at <= b'[k].at
  {
    forall k | 0 <= k < |b'| ensures b[0].at <= b'[k].at {
      assert b'[k] in multiset(b);
      var i :| 0 <= i < |b| && b[i] == b'[k];
      FirstIsLeast(b, |b|, i + 1);
    }
  }
}
