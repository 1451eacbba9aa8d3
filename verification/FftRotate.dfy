/**
 * The in-place block rotation that ends fftmx. The real and imaginary arrays, which the
 * code moves in lock step, are one array of elements here.
 */
module FftRotate {
  import opened Naturals
  import opened MixedRadix
  import opened Cycles
  import opened FactorSplits
  import opened FftFactor
  import opened FftReorder

  /** Starts of consecutive blocks of length jc inside an array of length len. */
  ghost predicate Layout(base: seq<int>, jc: nat, len: nat) {
    && jc > 0 && base != []
    && (forall k :: 0 <= k < |base| ==> 0 <= base[k] <= len - jc)
    && (forall k, l :: 0 <= k < l < |base| ==> base[k] + jc <= base[l])
  }

  ghost function At<T>(s: seq<T>, base: seq<int>, k: int, e: int): T
    requires 0 <= k < |base| && 0 <= base[k] + e < |s|
  {
    s[base[k] + e]
  }

  /** s' is s with block k, offsets lo..hi, replaced by block p[k] for every k in moved. */
  ghost predicate Moved<T>(s: seq<T>, s': seq<T>, base: seq<int>, jc: nat, p: seq<int>, moved: set<int>,
                           lo: int, hi: int)
  {
    && |s'| == |s| && Layout(base, jc, |s|) && |p| == |base|
    && (forall k :: k in moved ==> 0 <= k < |base| && 0 <= p[k] < |base|)
    && (forall k, e :: 0 <= k < |base| && 0 <= e < jc ==>
      At(s', base, k, e) == At(s, base, if k in moved && lo <= e < hi then p[k] else k, e))
    && (forall x :: 0 <= x < |s| && (x < base[0] || x >= base[|base| - 1] + jc) ==> s'[x] == s[x])
  }

  // ----- copying one block -----

  method SaveBlock<T>(a: array<T>, at: array<T>, kk: nat, kspan: nat)
    requires kk + kspan <= a.Length && kspan <= at.Length && a != at
    modifies at
    ensures forall e :: 0 <= e < kspan ==> at[e] == a[kk + kspan - 1 - e]
  {
    var k1, k2 := kk + kspan, 0;
    while k1 != kk
      invariant kk <= k1 <= kk + kspan && k2 == kk + kspan - k1
      invariant forall e :: 0 <= e < k2 ==> at[e] == a[kk + kspan - 1 - e]
      decreases k1
    {
      at[k2] := a[k1 - 1];
      k1, k2 := k1 - 1, k2 + 1;
    }
  }

  method RestoreBlock<T>(a: array<T>, at: array<T>, kk: nat, kspan: nat)
    requires kk + kspan <= a.Length && kspan <= at.Length && a != at
    modifies a
    ensures forall x :: kk <= x < kk + kspan ==> a[x] == at[kk + kspan - 1 - x]
    ensures forall x :: 0 <= x < a.Length && !(kk <= x < kk + kspan) ==> a[x] == old(a[x])
  {
    var k1, k2 := kk + kspan, 0;
    while k1 > kk
      invariant kk <= k1 <= kk + kspan && k2 == kk + kspan - k1
      invariant forall x :: k1 <= x < kk + kspan ==> a[x] == at[kk + kspan - 1 - x]
      invariant forall x :: 0 <= x < a.Length && !(k1 <= x < kk + kspan) ==> a[x] == old(a[x])
    {
      a[k1 - 1] := at[k2];
      k1, k2 := k1 - 1, k2 + 1;
    }
  }

  method MoveBlock<T>(a: array<T>, dst: nat, src: nat, kspan: nat)
    requires dst + kspan <= a.Length && src + kspan <= a.Length
    requires dst + kspan <= src || src + kspan <= dst
    modifies a
    ensures forall x :: dst <= x < dst + kspan ==> a[x] == old(a[x - dst + src])
    ensures forall x :: 0 <= x < a.Length && !(dst <= x < dst + kspan) ==> a[x] == old(a[x])
  {
    var k1, k2 := dst + kspan, src + kspan;
    while k1 != dst
      invariant dst <= k1 <= dst + kspan && k2 - src == k1 - dst
      invariant forall x :: k1 <= x < dst + kspan ==> a[x] == old(a[x - dst + src])
      invariant forall x :: 0 <= x < a.Length && !(k1 <= x < dst + kspan) ==> a[x] == old(a[x])
      decreases k1
    {
      a[k1 - 1] := a[k2 - 1];
      k1, k2 := k1 - 1, k2 - 1;
    }
  }

  /** One block copy, seen as a step of Moved. */
  lemma MovedStep<T>(s: seq<T>, s1: seq<T>, s2: seq<T>, base: seq<int>, jc: nat, p: seq<int>, moved: set<int>,
                     lo: nat, hi: nat, k: int)
    requires Moved(s, s1, base, jc, p, moved, lo, hi) && |s2| == |s1|
    requires 0 <= k < |base| && k !in moved && 0 <= p[k] < |base| && lo <= hi <= jc
    requires forall x :: base[k] + lo <= x < base[k] + hi ==> s2[x] == s[x - base[k] + base[p[k]]]
    requires forall x :: 0 <= x < |s1| && !(base[k] + lo <= x < base[k] + hi) ==> s2[x] == s1[x]
    ensures Moved(s, s2, base, jc, p, moved + {k}, lo, hi)
  {
    forall l, e | 0 <= l < |base| && 0 <= e < jc
      ensures At(s2, base, l, e) == At(s, base, if l in moved + {k} && lo <= e < hi then p[l] else l, e)
    {
      var x := base[l] + e;
      if l == k && lo <= e < hi {
        assert At(s2, base, l, e) == s2[base[k] + e];
      } else {
        assert l < k ==> base[l] + jc <= base[k];
        assert k < l ==> base[k] + jc <= base[l];
        assert s2[x] == s1[x];
        assert At(s2, base, l, e) == At(s1, base, l, e);
      }
    }
    assert k < |base| - 1 ==> base[k] + jc <= base[|base| - 1];
    assert k > 0 ==> base[0] + jc <= base[k];
  }

  /** Block starts as the code computes them. */
  ghost predicate Starts(base: seq<int>, i: int, jc: nat, nn: nat) {
    |base| == nn + 1 && forall k :: 0 <= k <= nn ==> base[k] == i + jc * k
  }

  /** The permutation of the blocks and where the blocks lie. */
  ghost predicate Geometry(len: nat, base: seq<int>, i: int, jc: nat, p: seq<int>, nn: nat) {
    Permutation(p, nn) && Layout(base, jc, len) && Starts(base, i, jc, nn)
  }

  /** c is the nontrivial cycle of j, with its marks in np. */
  ghost predicate MarkedCycle(np: seq<int>, p: seq<int>, nn: nat, c: seq<int>, j: int) {
    && Permutation(p, nn) && nn < |np| && Cycle(p, nn, c) && c[0] == j && |c| > 1
    && np[j] == p[j]
    && forall t :: 1 <= t < |c| ==> np[c[t]] == -p[c[t]]
  }

  lemma SourceStart(base: seq<int>, i: int, jc: nat, nn: nat, k: int, next: int)
    requires Starts(base, i, jc, nn) && 0 <= k <= nn && 0 <= next <= nn
    ensures base[k] - jc * (k - next) == base[next]
  {
    assert base[k] == i + jc * k;
    assert base[next] == i + jc * next;
    Distribute(jc, k, next);
  }

  lemma Distribute(jc: int, k: int, next: int)
    ensures jc * (k - next) == jc * k - jc * next
  {
  }

  /** The element after position t of a cycle. */
  ghost function Successor(c: seq<int>, t: int): int
    requires 0 <= t < |c|
  {
    if t + 1 == |c| then c[0] else c[t + 1]
  }

  lemma SuccessorOnCycle(p: seq<int>, nn: nat, c: seq<int>, t: int)
    requires Permutation(p, nn) && Cycle(p, nn, c) && 0 <= t < |c|
    ensures p[c[t]] == Successor(c, t) && 1 <= c[t] <= nn && 1 <= Successor(c, t) <= nn
    ensures |c| > 1 ==> Successor(c, t) != c[t]
  {
  }

  /** Copies block p[k] over block k, for k at position t of the cycle. */
  method RotateStep<T>(a: array<T>, i: int, jc: nat, lo: nat, kspan: nat, kk: nat, k: int, npk: int, ghost s: seq<T>,
                       ghost p: seq<int>, ghost nn: nat, ghost c: seq<int>, ghost t: nat, ghost base: seq<int>)
    returns (src: nat)
    requires Permutation(p, nn) && Cycle(p, nn, c) && 1 <= t < |c| && k == c[t] && npk == -p[k]
    requires Layout(base, jc, a.Length) && Starts(base, i, jc, nn) && lo + kspan <= jc && kk == base[k] + lo
    requires Moved(s, a[..], base, jc, p, Elements(c[1..t]), lo, lo + kspan)
    modifies a
    ensures src == base[p[k]] + lo
    ensures Moved(s, a[..], base, jc, p, Elements(c[1..t + 1]), lo, lo + kspan)
  {
    ghost var s1 := a[..];
    SuccessorOnCycle(p, nn, c, t);
    SourceStart(base, i, jc, nn, k, p[k]);
    src := kk - jc * (k + npk);
    SourceUntouched(s, s1, base, jc, p, nn, c, t, p[k], lo, lo + kspan);
    MoveBlock(a, kk, src, kspan);
    NextElement(p, nn, c, t);
    MovedStep(s, s1, a[..], base, jc, p, Elements(c[1..t]), lo, lo + kspan, k);
  }

  /** Rotates offsets lo..lo+kspan of the blocks on the cycle c of the leader j. */
  method RotateChunk<T>(a: array<T>, at: array<T>, np: array<int>, i: int, jc: nat, lo: nat, kspan: nat, j: int,
                        ghost p: seq<int>, ghost nn: nat, ghost c: seq<int>, ghost base: seq<int>)
    requires a != at && np as object != a && np as object != at
    requires Geometry(a.Length, base, i, jc, p, nn) && MarkedCycle(np[..], p, nn, c, j)
    requires lo + kspan <= jc && kspan <= at.Length
    modifies a, at
    ensures Moved(old(a[..]), a[..], base, jc, p, Elements(c), lo, lo + kspan)
  {
    ghost var s := a[..];
    ghost var t := 1;
    SuccessorOnCycle(p, nn, c, 0);
    var k := np[j];
    assert base[k] == i + jc * k;
    var kk := jc * k + i + lo;
    SaveBlock(a, at, kk, kspan);
    while k != j
      invariant 1 <= t <= |c| && k == Successor(c, t - 1)
      invariant kk == base[k] + lo
      invariant Moved(s, a[..], base, jc, p, Elements(c[1..t]), lo, lo + kspan)
      invariant forall e :: 0 <= e < kspan ==> at[e] == s[base[c[1]] + lo + kspan - 1 - e]
      decreases |c| - t
    {
      SuccessorOnCycle(p, nn, c, t);
      kk := RotateStep(a, i, jc, lo, kspan, kk, k, np[k], s, p, nn, c, t, base);
      k := -np[k];
      t := t + 1;
    }
    CycleEnds(p, nn, c, t);
    SuccessorOnCycle(p, nn, c, 0);
    FinishCycle(a, at, jc, lo, kspan, kk, j, s, p, nn, c, base);
  }

  /** Puts the saved block, the one that belongs to the leader, in its place. */
  method FinishCycle<T>(a: array<T>, at: array<T>, jc: nat, lo: nat, kspan: nat, kk: nat, j: int,
                        ghost s: seq<T>, ghost p: seq<int>, ghost nn: nat, ghost c: seq<int>, ghost base: seq<int>)
    requires a != at && lo + kspan <= jc && kspan <= at.Length
    requires Permutation(p, nn) && Cycle(p, nn, c) && |c| > 1 && c[0] == j && p[j] == c[1]
    requires Moved(s, a[..], base, jc, p, Elements(c[1..]), lo, lo + kspan)
    requires 0 <= j < |base| && 0 <= c[1] < |base| && kk == base[j] + lo && kk + kspan <= a.Length
    requires forall e :: 0 <= e < kspan ==> at[e] == s[base[c[1]] + lo + kspan - 1 - e]
    modifies a
    ensures Moved(s, a[..], base, jc, p, Elements(c), lo, lo + kspan)
  {
    ghost var s1 := a[..];
    RestoreBlock(a, at, kk, kspan);
    WholeCycle(p, nn, c);
    hide Cycle, Permutation;
    MovedStep(s, s1, a[..], base, jc, p, Elements(c[1..]), lo, lo + kspan, j);
  }

  lemma CycleEnds(p: seq<int>, nn: nat, c: seq<int>, t: nat)
    requires Permutation(p, nn) && Cycle(p, nn, c) && 1 <= t <= |c| && Successor(c, t - 1) == c[0]
    ensures t == |c| && c[1..t] == c[1..]
  {
  }

  lemma NextElement(p: seq<int>, nn: nat, c: seq<int>, t: nat)
    requires Permutation(p, nn) && Cycle(p, nn, c) && 1 <= t < |c|
    ensures Elements(c[1..t + 1]) == Elements(c[1..t]) + {c[t]}
    ensures c[t] !in Elements(c[1..t])
  {
    assert c[1..t + 1] == c[1..t] + [c[t]];
    ElementsSnoc(c[1..t], c[t]);
  }

  lemma WholeCycle(p: seq<int>, nn: nat, c: seq<int>)
    requires Permutation(p, nn) && Cycle(p, nn, c)
    ensures Elements(c) == Elements(c[1..]) + {c[0]}
    ensures c[0] !in Elements(c[1..])
  {
    forall x | x in Elements(c) ensures x in Elements(c[1..]) + {c[0]} {
      var t :| 0 <= t < |c| && c[t] == x;
      if t > 0 { assert c[1..][t - 1] == x; }
    }
    forall x | x in Elements(c[1..]) ensures x in Elements(c) {
      var t :| 0 <= t < |c[1..]| && c[1..][t] == x;
      assert c[t + 1] == x;
    }
  }

  /** The block about to be copied from has not been overwritten yet. */
  lemma SourceUntouched<T>(s: seq<T>, s1: seq<T>, base: seq<int>, jc: nat, p: seq<int>, nn: nat, c: seq<int>, t: nat,
                           src: int, lo: nat, hi: nat)
    requires Permutation(p, nn) && Cycle(p, nn, c) && 1 <= t < |c| && |base| == nn + 1
    requires src == if t + 1 == |c| then c[0] else c[t + 1]
    requires Moved(s, s1, base, jc, p, Elements(c[1..t]), lo, hi) && hi <= jc
    ensures forall x :: base[src] + lo <= x < base[src] + hi ==> s1[x] == s[x]
  {
    forall u | 0 <= u < |c[1..t]| ensures c[1..t][u] != src {
      assert c[1..t][u] == c[u + 1];
    }
    forall x | base[src] + lo <= x < base[src] + hi ensures s1[x] == s[x] {
      assert At(s1, base, src, x - base[src]) == At(s, base, src, x - base[src]);
    }
  }

  /** The next chunk down, on top of offsets lo + kspan..jc already rotated since s. */
  method ExtendRotation<T>(a: array<T>, at: array<T>, np: array<int>, i: int, jc: nat, lo: nat, kspan: nat, j: int,
                           ghost p: seq<int>, ghost nn: nat, ghost c: seq<int>, ghost base: seq<int>, ghost s: seq<T>)
    requires a != at && np as object != a && np as object != at
    requires Geometry(a.Length, base, i, jc, p, nn) && MarkedCycle(np[..], p, nn, c, j)
    requires lo + kspan <= jc && kspan <= at.Length
    requires Moved(s, a[..], base, jc, p, Elements(c), lo + kspan, jc)
    modifies a, at
    ensures Moved(s, a[..], base, jc, p, Elements(c), lo, jc)
  {
    ghost var s1 := a[..];
    RotateChunk(a, at, np, i, jc, lo, kspan, j, p, nn, c, base);
    MovedCompose(s, s1, a[..], base, jc, p, Elements(c), lo, lo + kspan, jc);
  }

  /** Rotates the whole blocks of one cycle, at most maxf offsets at a time. */
  method RotateCycle<T>(a: array<T>, at: array<T>, np: array<int>, i: int, jc: nat, maxf: nat, j: int,
                        ghost p: seq<int>, ghost nn: nat, ghost c: seq<int>, ghost base: seq<int>)
    requires a != at && np as object != a && np as object != at
    requires Geometry(a.Length, base, i, jc, p, nn) && MarkedCycle(np[..], p, nn, c, j)
    requires 1 <= maxf <= at.Length
    modifies a, at
    ensures Moved(old(a[..]), a[..], base, jc, p, Elements(c), 0, jc)
  {
    ghost var s, nps := a[..], np[..];
    var jj := jc;
    CycleInRange(p, nn, c);
    MovedNothing(s, base, jc, p, Elements(c));
    while jj != 0
      invariant 0 <= jj <= jc && np[..] == nps
      invariant Moved(s, a[..], base, jc, p, Elements(c), jj, jc)
    {
      var kspan := if jj <= maxf then jj else maxf;
      jj := jj - kspan;
      ExtendRotation(a, at, np, i, jc, jj, kspan, j, p, nn, c, base, s);
    }
  }

  lemma CycleInRange(p: seq<int>, nn: nat, c: seq<int>)
    requires Permutation(p, nn) && Cycle(p, nn, c)
    ensures forall k :: k in Elements(c) ==> 1 <= k <= nn && 1 <= p[k] <= nn && p[k] in Elements(c)
  {
    forall k | k in Elements(c) ensures 1 <= k <= nn && 1 <= p[k] <= nn && p[k] in Elements(c) {
      var t :| 0 <= t < |c| && c[t] == k;
      SuccessorOnCycle(p, nn, c, t);
      assert c[if t + 1 == |c| then 0 else t + 1] in Elements(c);
    }
  }

  lemma MovedNothing<T>(s: seq<T>, base: seq<int>, jc: nat, p: seq<int>, moved: set<int>)
    requires Layout(base, jc, |s|) && |p| == |base|
    requires forall k :: k in moved ==> 0 <= k < |base| && 0 <= p[k] < |base|
    ensures Moved(s, s, base, jc, p, moved, jc, jc)
  {
  }

  lemma MovedCompose<T>(s: seq<T>, s1: seq<T>, s2: seq<T>, base: seq<int>, jc: nat, p: seq<int>, moved: set<int>,
                        lo: nat, mid: nat, hi: nat)
    requires lo <= mid <= hi <= jc
    requires Moved(s, s1, base, jc, p, moved, mid, hi) && Moved(s1, s2, base, jc, p, moved, lo, mid)
    ensures Moved(s, s2, base, jc, p, moved, lo, hi)
  {
    forall l, e | 0 <= l < |base| && 0 <= e < jc
      ensures At(s2, base, l, e) == At(s, base, if l in moved && lo <= e < hi then p[l] else l, e)
    {
      var l' := if l in moved && lo <= e < mid then p[l] else l;
      assert At(s2, base, l, e) == At(s1, base, l', e);
    }
  }

  lemma MovedUnion<T>(s: seq<T>, s1: seq<T>, s2: seq<T>, base: seq<int>, jc: nat, p: seq<int>, moved: set<int>,
                      e: set<int>)
    requires Moved(s, s1, base, jc, p, moved, 0, jc) && Moved(s1, s2, base, jc, p, e, 0, jc)
    requires moved !! e && forall k :: k in e ==> p[k] !in moved
    ensures Moved(s, s2, base, jc, p, moved + e, 0, jc)
  {
    forall l, x | 0 <= l < |base| && 0 <= x < jc
      ensures At(s2, base, l, x) == At(s, base, if l in moved + e && 0 <= x < jc then p[l] else l, x)
    {
      var l' := if l in e then p[l] else l;
      assert At(s2, base, l, x) == At(s1, base, l', x);
    }
  }

  /** The cycle of a leader does not meet cycles of greater leaders. */
  lemma LeaderCycle(p: seq<int>, nn: nat, j: int, moved: set<int>) returns (c: seq<int>)
    requires Permutation(p, nn) && 1 <= j <= nn && Leader(p, nn, j) && p[j] != j
    requires Closed(p, nn, moved) && forall k :: k in moved ==> k > j
    ensures Cycle(p, nn, c) && c[0] == j && |c| > 1 && LeastFirst(c)
    ensures Elements(c) !! moved && Closed(p, nn, moved + Elements(c))
    ensures forall k :: k in Elements(c) ==> k >= j
  {
    c := CycleFrom(p, nn, j);
    CycleClosed(p, nn, c);
    ClosedUnion(p, nn, moved, Elements(c));
    forall t | 0 <= t < |c| ensures c[t] >= j && c[t] !in moved {
      IterateAlong(p, nn, c, t);
      assert j <= Iterate(p, nn, j, t);
      if c[t] in moved {
        PathReturns(p, nn, c, t);
        IterateStays(p, nn, moved, c[t], |c| - t);
      }
    }
  }

  lemma {:induction false} IterateAlong(p: seq<int>, nn: nat, c: seq<int>, t: nat)
    requires Permutation(p, nn) && Path(p, nn, c) && t < |c|
    ensures Iterate(p, nn, c[0], t) == c[t]
  {
    if t > 0 {
      IterateAlong(p, nn, c, t - 1);
      IterateSnoc(p, nn, c[0], t - 1);
    }
  }

  lemma {:induction false} IterateSnoc(p: seq<int>, nn: nat, k: int, n: nat)
    requires Permutation(p, nn) && 1 <= k <= nn
    ensures Iterate(p, nn, k, n + 1) == p[Iterate(p, nn, k, n)]
    decreases n
  {
    if n > 0 {
      IterateSnoc(p, nn, p[k], n - 1);
    }
  }

  lemma MarksAlongCycle(np: seq<int>, p: seq<int>, nn: nat, c: seq<int>)
    requires Permutation(p, nn) && |np| > nn && Cycle(p, nn, c) && |c| > 1 && LeastFirst(c)
    requires forall k :: 1 <= k <= nn ==> MarkedAt(np, p, nn, k)
    ensures np[c[0]] == p[c[0]]
    ensures forall t :: 1 <= t < |c| ==> np[c[t]] == -p[c[t]]
  {
    SuccessorOnCycle(p, nn, c, 0);
    forall t | 0 <= t < |c| ensures np[c[t]] == if t == 0 then p[c[0]] else -p[c[t]] {
      LeadersOfCycle(p, nn, c, t);
      assert MarkedAt(np, p, nn, c[t]);
    }
  }

  /** Every block k holds what block p[k] held; nothing outside the blocks changes. */
  ghost predicate Permuted<T>(s: seq<T>, s': seq<T>, base: seq<int>, jc: nat, p: seq<int>) {
    && |s'| == |s| && Layout(base, jc, |s|) && |p| == |base|
    && (forall k :: 0 <= k < |base| ==> 0 <= p[k] < |base|)
    && (forall k, e :: 0 <= k < |base| && 0 <= e < jc ==> At(s', base, k, e) == At(s, base, p[k], e))
    && (forall x :: 0 <= x < |s| && (x < base[0] || x >= base[|base| - 1] + jc) ==> s'[x] == s[x])
  }

  /** np carries the final marks, and 1 is a leader that moves. */
  ghost predicate Marks(np: seq<int>, p: seq<int>, nn: nat) {
    && Permutation(p, nn) && 1 <= nn < |np| && p[1] != 1
    && forall k :: 1 <= k <= nn ==> MarkedAt(np, p, nn, k)
  }

  lemma OneIsLeader(np: seq<int>, p: seq<int>, nn: nat)
    requires Marks(np, p, nn)
    ensures np[1] > 0
  {
    assert MarkedAt(np, p, nn, 1);
  }

  lemma PositiveIsLeader(np: seq<int>, p: seq<int>, nn: nat, j: int)
    requires Marks(np, p, nn) && 1 <= j <= nn && np[j] >= 0
    ensures Leader(p, nn, j) && p[j] != j
  {
    assert MarkedAt(np, p, nn, j);
  }

  /** The cycles of all positive marks from j upwards have been rotated. */
  ghost predicate Rotated(np: seq<int>, p: seq<int>, nn: nat, j: int, moved: set<int>) {
    && Permutation(p, nn) && nn < |np| && Closed(p, nn, moved)
    && (forall k :: k in moved ==> k >= j)
    && (forall k :: j <= k <= nn && 1 <= k && np[k] >= 0 ==> k in moved)
  }

  /** The cycle of the leader j with its marks; it is disjoint from what has moved. */
  lemma NextCycle(np: seq<int>, p: seq<int>, nn: nat, j: int, moved: set<int>) returns (c: seq<int>)
    requires Marks(np, p, nn) && 1 <= j <= nn && np[j] >= 0
    requires Rotated(np, p, nn, j + 1, moved)
    ensures MarkedCycle(np, p, nn, c, j)
    ensures Elements(c) !! moved && forall k :: k in Elements(c) ==> 0 <= k < |p| && p[k] !in moved
    ensures Rotated(np, p, nn, j, moved + Elements(c))
  {
    PositiveIsLeader(np, p, nn, j);
    c := LeaderCycle(p, nn, j, moved);
    MarksAlongCycle(np, p, nn, c);
    DisjointImages(p, nn, c, moved);
    assert c[0] in Elements(c);
    RotatedUnion(np, p, nn, j, moved, Elements(c));
  }

  lemma DisjointImages(p: seq<int>, nn: nat, c: seq<int>, moved: set<int>)
    requires Permutation(p, nn) && Cycle(p, nn, c) && Elements(c) !! moved
    ensures forall k :: k in Elements(c) ==> 0 <= k < |p| && p[k] !in moved
  {
    CycleInRange(p, nn, c);
  }

  lemma RotatedUnion(np: seq<int>, p: seq<int>, nn: nat, j: int, moved: set<int>, e: set<int>)
    requires Rotated(np, p, nn, j + 1, moved) && Closed(p, nn, moved + e) && j in e
    requires forall k :: k in e ==> k >= j
    ensures Rotated(np, p, nn, j, moved + e)
  {
  }

  /** Rotates the cycle of the leader j, after those of the greater leaders. */
  method RotateLeader<T>(a: array<T>, at: array<T>, np: array<int>, i: int, jc: nat, maxf: nat, j: int,
                         ghost p: seq<int>, ghost nn: nat, ghost base: seq<int>, ghost s: seq<T>, ghost moved: set<int>)
    returns (ghost moved': set<int>)
    requires a != at && np as object != a && np as object != at
    requires Geometry(a.Length, base, i, jc, p, nn) && Marks(np[..], p, nn)
    requires 1 <= maxf <= at.Length && 1 <= j <= nn && np[j] >= 0
    requires Rotated(np[..], p, nn, j + 1, moved) && Moved(s, a[..], base, jc, p, moved, 0, jc)
    modifies a, at
    ensures np[..] == old(np[..])
    ensures Rotated(np[..], p, nn, j, moved') && Moved(s, a[..], base, jc, p, moved', 0, jc)
  {
    ghost var s1, nps := a[..], np[..];
    ghost var c := NextCycle(nps, p, nn, j, moved);
    RotateCycle(a, at, np, i, jc, maxf, j, p, nn, c, base);
    MovedUnion(s, s1, a[..], base, jc, p, moved, Elements(c));
    moved' := moved + Elements(c);
  }

  /** All leaders from k3 down to 1. */
  method RotateSection<T>(a: array<T>, at: array<T>, np: array<int>, i: int, jc: nat, maxf: nat, k3: int,
                          ghost p: seq<int>, ghost nn: nat, ghost base: seq<int>)
    requires a != at && np as object != a && np as object != at
    requires Geometry(a.Length, base, i, jc, p, nn) && Marks(np[..], p, nn)
    requires 1 <= maxf <= at.Length
    requires 1 <= k3 <= nn && forall k :: k3 < k <= nn ==> np[k] < 0
    modifies a, at
    ensures np[..] == old(np[..])
    ensures Permuted(old(a[..]), a[..], base, jc, p)
  {
    ghost var s, nps := a[..], np[..];
    var j := k3 + 1;
    ghost var moved: set<int> := {};
    OneIsLeader(nps, p, nn);
    while true
      invariant 1 < j <= k3 + 1 && np[..] == nps
      invariant Rotated(nps, p, nn, j, moved) && Moved(s, a[..], base, jc, p, moved, 0, jc)
      decreases j
    {
      j := NextLeader(np, j, k3, p, nn, moved);
      moved := RotateLeader(a, at, np, i, jc, maxf, j, p, nn, base, s, moved);
      if j == 1 { break; }
    }
    AllMoved(s, a[..], base, jc, p, nn, nps, moved);
  }

  /** The scan downwards for the next positive mark. */
  method NextLeader(np: array<int>, j0: int, k3: int, ghost p: seq<int>, ghost nn: nat, ghost moved: set<int>)
    returns (j: int)
    requires Permutation(p, nn) && 1 < j0 <= k3 + 1 <= nn + 1 <= np.Length && np[1] > 0
    requires Rotated(np[..], p, nn, j0, moved)
    ensures 1 <= j < j0 && np[j] >= 0
    ensures Rotated(np[..], p, nn, j + 1, moved)
  {
    j := j0 - 1;
    while np[j] < 0
      invariant 1 <= j < j0
      invariant forall k :: j < k < j0 ==> np[k] < 0
      decreases j
    {
      j := j - 1;
    }
  }

  lemma AllMoved<T>(s: seq<T>, s': seq<T>, base: seq<int>, jc: nat, p: seq<int>, nn: nat, np: seq<int>,
                    moved: set<int>)
    requires Permutation(p, nn) && |base| == nn + 1 && Marks(np, p, nn)
    requires Rotated(np, p, nn, 1, moved) && Moved(s, s', base, jc, p, moved, 0, jc)
    ensures Permuted(s, s', base, jc, p)
  {
    forall k | 0 <= k <= nn ensures 0 <= p[k] <= nn && (k !in moved ==> p[k] == k) {
      if k > 0 && p[k] != k {
        var j := LeaderOf(p, nn, k);
        assert MarkedAt(np, p, nn, j);
      }
    }
    forall k, e | 0 <= k < |base| && 0 <= e < jc ensures At(s', base, k, e) == At(s, base, p[k], e) {
    }
  }

  // ----- all sections, and the whole stage -----

  ghost function Base(i: int, jc: nat, nn: nat): (base: seq<int>)
    ensures Starts(base, i, jc, nn)
  {
    seq(nn + 1, k requires 0 <= k => i + jc * k)
  }

  ghost function SectionBase(q: nat, kspnn: nat, jc: nat, nn: nat): (base: seq<int>)
    ensures Starts(base, q * kspnn, jc, nn)
  {
    Base(q * kspnn, jc, nn)
  }

  ghost predicate SectionPermuted<T>(s: seq<T>, s': seq<T>, base: seq<int>, jc: nat, p: seq<int>) {
    && |s'| == |s| && Layout(base, jc, |s|) && |p| == |base|
    && (forall k :: 0 <= k < |base| ==> 0 <= p[k] < |base|)
    && (forall k, e :: 0 <= k < |base| && 0 <= e < jc ==> At(s', base, k, e) == At(s, base, p[k], e))
  }

  /** Sections q..sections of s' hold the permuted blocks of s; the rest is as in s. */
  ghost predicate SectionsDone<T>(s: seq<T>, s': seq<T>, q: nat, sections: nat, kspnn: nat, jc: nat,
                                  p: seq<int>, nn: nat)
  {
    && |s'| == |s|
    && (forall r :: q <= r < sections ==> SectionPermuted(s, s', SectionBase(r, kspnn, jc, nn), jc, p))
    && (forall x :: 0 <= x < |s| && (x < q * kspnn || x >= sections * kspnn) ==> s'[x] == s[x])
  }

  lemma SectionLayout(q: nat, sections: nat, kspnn: nat, jc: nat, nn: nat, len: nat)
    requires q < sections && kspnn == jc * (nn + 1) && jc > 0 && sections * kspnn <= len
    ensures Layout(SectionBase(q, kspnn, jc, nn), jc, len)
    ensures var base := SectionBase(q, kspnn, jc, nn);
      base[0] == q * kspnn && base[nn] + jc == q * kspnn + kspnn <= sections * kspnn
  {
    var base := SectionBase(q, kspnn, jc, nn);
    var b := q * kspnn;
    Distribute2(q, kspnn);
    MulMono(q + 1, kspnn, sections, kspnn);
    BlockSpacing(jc, nn, nn + 1);
    assert base[nn] == b + jc * nn;
    forall k | 0 <= k <= nn ensures 0 <= base[k] <= len - jc {
      BlockSpacing(jc, k, nn + 1);
      assert base[k] == b + jc * k;
    }
    forall k, l | 0 <= k < l <= nn ensures base[k] + jc <= base[l] {
      BlockSpacing(jc, k, l);
      assert base[k] == b + jc * k;
      assert base[l] == b + jc * l;
    }
    assert base[0] == b + jc * 0;
  }

  lemma BlockSpacing(jc: nat, k: nat, l: nat)
    requires k < l
    ensures 0 <= jc * k && jc * k + jc <= jc * l
    ensures l == k + 1 ==> jc * k + jc == jc * l
  {
    MulMono(jc, k + 1, jc, l);
    assert jc * (k + 1) == jc * k + jc;
  }

  lemma Distribute2(q: nat, k: nat)
    ensures (q + 1) * k == q * k + k
  {
  }

  /** One more section, below the ones already done. */
  lemma SectionStep<T>(s: seq<T>, s1: seq<T>, s2: seq<T>, q: nat, sections: nat, kspnn: nat, jc: nat, p: seq<int>,
                       nn: nat)
    requires q < sections && kspnn == jc * (nn + 1) && jc > 0 && sections * kspnn <= |s|
    requires SectionsDone(s, s1, q + 1, sections, kspnn, jc, p, nn)
    requires Permuted(s1, s2, SectionBase(q, kspnn, jc, nn), jc, p)
    ensures SectionsDone(s, s2, q, sections, kspnn, jc, p, nn)
  {
    SectionLayout(q, sections, kspnn, jc, nn, |s|);
    Distribute2(q, kspnn);
    forall r | q <= r < sections
      ensures SectionPermuted(s, s2, SectionBase(r, kspnn, jc, nn), jc, p)
    {
      SectionLayout(r, sections, kspnn, jc, nn, |s|);
      var base := SectionBase(r, kspnn, jc, nn);
      if r > q {
        MulMono(q + 1, kspnn, r, kspnn);
        UpperSection(s, s1, s2, q, kspnn, base, jc, p);
      } else {
        LowestSection(s, s1, s2, q, kspnn, base, jc, p);
      }
    }
  }

  lemma UpperSection<T>(s: seq<T>, s1: seq<T>, s2: seq<T>, q: nat, kspnn: nat, base: seq<int>, jc: nat, p: seq<int>)
    requires SectionPermuted(s, s1, base, jc, p) && |s2| == |s1|
    requires base[0] >= (q + 1) * kspnn
    requires forall x :: (q + 1) * kspnn <= x < |s1| ==> s2[x] == s1[x]
    ensures SectionPermuted(s, s2, base, jc, p)
  {
    forall k, e | 0 <= k < |base| && 0 <= e < jc ensures At(s2, base, k, e) == At(s, base, p[k], e) {
      assert k > 0 ==> base[0] + jc <= base[k];
      assert At(s1, base, k, e) == At(s, base, p[k], e);
    }
  }

  lemma LowestSection<T>(s: seq<T>, s1: seq<T>, s2: seq<T>, q: nat, kspnn: nat, base: seq<int>, jc: nat, p: seq<int>)
    requires Permuted(s1, s2, base, jc, p) && |s| == |s1|
    requires base[|base| - 1] + jc == (q + 1) * kspnn
    requires forall x :: 0 <= x < (q + 1) * kspnn && x < |s| ==> s1[x] == s[x]
    ensures SectionPermuted(s, s2, base, jc, p)
  {
    forall k, e | 0 <= k < |base| && 0 <= e < jc ensures At(s2, base, k, e) == At(s, base, p[k], e) {
      assert p[k] < |base| - 1 ==> base[p[k]] + jc <= base[|base| - 1];
      assert At(s2, base, k, e) == At(s1, base, p[k], e);
    }
  }

  /** Reorders every section, from the top of the data down. */
  method ReorderSections<T>(a: array<T>, at: array<T>, np: array<int>, nt0: int, jc: nat, kspnn: nat, maxf: nat,
                            k3: int, ghost p: seq<int>, ghost nn: nat, ghost sections: nat)
    requires a != at && np as object != a && np as object != at
    requires Permutation(p, nn) && Marks(np[..], p, nn)
    requires 1 <= maxf <= at.Length
    requires 1 <= k3 <= nn && forall k :: k3 < k <= nn ==> np[k] < 0
    requires jc > 0 && kspnn == jc * (nn + 1) && nt0 == sections * kspnn <= a.Length
    modifies a, at
    ensures SectionsDone(old(a[..]), a[..], 0, sections, kspnn, jc, p, nn)
  {
    ghost var s, nps := a[..], np[..];
    ghost var q := sections;
    PositiveProduct(jc, nn + 1);
    var nt := nt0 - kspnn;
    while nt >= 0
      invariant nt == q * kspnn - kspnn && 0 <= q <= sections && np[..] == nps
      invariant SectionsDone(s, a[..], q, sections, kspnn, jc, p, nn)
      decreases nt
    {
      SectionIndex(q, kspnn);
      q := q - 1;
      ghost var s1 := a[..];
      SectionLayout(q, sections, kspnn, jc, nn, a.Length);
      RotateSection(a, at, np, nt, jc, maxf, k3, p, nn, SectionBase(q, kspnn, jc, nn));
      SectionStep(s, s1, a[..], q, sections, kspnn, jc, p, nn);
      nt := nt - kspnn;
    }
    SectionIndex(q, kspnn);
  }

  lemma SectionIndex(q: nat, kspnn: nat)
    requires kspnn > 0
    ensures q * kspnn - kspnn >= 0 <==> q > 0
    ensures q > 0 ==> (q - 1) * kspnn == q * kspnn - kspnn
  {
    if q > 0 {
      Distribute2(q - 1, kspnn);
      MulMono(1, kspnn, q, kspnn);
    }
  }

  /** Block index after block index, in each section, in digit-reversed order. */
  ghost predicate DigitReversed<T>(s: seq<T>, s': seq<T>, sections: nat, kspnn: nat, jc: nat, fs: seq<nat>) {
    && Positive(fs) && Product(fs) > 0
    && SectionsDone(s, s', 0, sections, kspnn, jc, ReversalSeq(fs), Product(fs) - 1)
  }

  /**
   * The final stage of fftmx, from the label of its square-free permutation on. fs are the
   * middle factors nfac[kt..m - kt]; with fewer than two of them nothing moves.
   */
  method UnscrambleSquareFree<T>(a: array<T>, at: array<T>, np: array<int>, nfac: array<nat>, kt: nat, m: nat, nt: int,
                                 jc: nat, kspnn: nat, maxf: nat, k3in: int, ghost fs: seq<nat>, ghost sections: nat)
    requires a != at && np as object != a && np as object != at
    requires nfac as object != np && nfac as object != a && nfac as object != at
    requires 2 * kt <= m && m - kt < nfac.Length && fs == nfac[kt..m - kt]
    requires forall i :: 0 <= i < |fs| ==> fs[i] >= 2
    requires (2 * kt + 1 < m ==> Product(fs) <= np.Length) && 1 <= maxf <= at.Length
    requires jc > 0 && kspnn == jc * Product(fs) && nt == sections * kspnn <= a.Length
    modifies a, at, np, nfac
    ensures 2 * kt + 1 >= m ==> a[..] == old(a[..])
    ensures 2 * kt + 1 < m ==> DigitReversed(old(a[..]), a[..], sections, kspnn, jc, fs)
  {
    if 2 * kt + 1 >= m {
      return;
    }
    CumulateFactors(nfac, kt, m - kt);
    CumulatedSuffixes(nfac[..], kt, m - kt, fs);
    ReversalMovesOne(fs);
    var nn := ReverseDigits(np, nfac, kt, fs);
    ghost var p := ReversalSeq(fs);
    ReversalIsPermutation(fs);
    var k3 := MarkCycles(np, nn, k3in, p);
    MarksAfter(np[..], p, nn, k3in, k3);
    ReorderSections(a, at, np, nt, jc, kspnn, maxf, k3, p, nn, sections);
  }

  lemma CumulatedSuffixes(nfac: seq<nat>, kt: nat, nn: nat, fs: seq<nat>)
    requires kt <= nn < |nfac| && |fs| == nn - kt
    requires forall i :: kt <= i <= nn ==> nfac[i] == Product(fs[i - kt..])
    ensures Cumulative(nfac, kt, fs)
  {
    forall i | 0 <= i <= |fs| ensures nfac[kt + i] == Product(fs[i..]) {
      assert nfac[kt + i] == Product(fs[kt + i - kt..]);
    }
  }

  lemma MarksAfter(np: seq<int>, p: seq<int>, nn: nat, k3in: int, k3: int)
    requires Permutation(p, nn) && 1 <= nn < |np| && p[1] != 1
    requires forall k :: 1 <= k <= nn ==> MarkedAt(np, p, nn, k)
    requires LastPositive(np, nn, k3in, k3)
    ensures Marks(np, p, nn) && 1 <= k3 <= nn && forall k :: k3 < k <= nn ==> np[k] < 0
  {
    OneLeads(p, nn);
    assert MarkedAt(np, p, nn, 1);
    assert np[1] > 0;
    forall k | k3 < k <= nn ensures np[k] < 0 {
      assert MarkedAt(np, p, nn, k);
    }
  }

  lemma OneLeads(p: seq<int>, nn: nat)
    requires Permutation(p, nn) && nn >= 1
    ensures Leader(p, nn, 1)
  {
  }

  /**
   * A plan that fft_factor accepts meets the demands of the stage: its middle factors are
   * at least 2, the sentinel fits in nfac, and np[1..maxp] holds every index but the first.
   */
  lemma PlanFitsStage(n: nat, all: seq<nat>, sq: seq<nat>, mid: seq<nat>, maxp: int)
    requires Factorisation(n, all, sq, mid) && CoversScratch(maxp, sq, mid) && 2 <= n <= INT_MAX
    ensures var kt, m := |sq|, |all|;
      && 2 * kt <= m && m - kt < NFAC_SIZE && mid == all[kt..m - kt]
      && (forall i :: 0 <= i < |mid| ==> mid[i] >= 2)
      && (2 * kt + 1 < m ==> Product(mid) <= maxp + 1)
  {
    ProductAppend(sq, mid);
    ProductAppend(sq + mid, Reverse(sq));
    ProductReverse(sq);
    MirrorArithmetic(Product(sq), Product(mid));
    RoomForFactor(sq, mid, 1, n);
    MiddleAtLeast2(mid);
  }

  lemma MiddleAtLeast2(mid: seq<nat>)
    requires MiddlePart(mid)
    ensures forall i :: 0 <= i < |mid| ==> mid[i] >= 2
  {
    forall i | 0 <= i < |mid| && mid != [4] ensures mid[i] >= 2 {
      assert IsPrime(mid[i]);
    }
  }
}
