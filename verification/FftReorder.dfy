/** Permutations of 1..nn, their cycles and cycle leaders. */
module Cycles {

  /** p[1..nn] is a permutation of 1..nn; p[0] is not part of it and points to itself. */
  ghost predicate Permutation(p: seq<int>, nn: nat) {
    && |p| == nn + 1
    && p[0] == 0
    && (forall k :: 1 <= k <= nn ==> 1 <= p[k] <= nn)
    && (forall k, l :: 1 <= k < l <= nn ==> p[k] != p[l])
  }

  ghost function Iterate(p: seq<int>, nn: nat, k: int, n: nat): (r: int)
    requires Permutation(p, nn) && 1 <= k <= nn
    ensures 1 <= r <= nn
    decreases n
  {
    if n == 0 then k else Iterate(p, nn, p[k], n - 1)
  }

  /** k is the least index of its cycle. */
  ghost predicate Leader(p: seq<int>, nn: nat, k: int)
    requires Permutation(p, nn) && 1 <= k <= nn
  {
    forall n: nat :: k <= Iterate(p, nn, k, n)
  }

  /** Closed under the permutation and under its inverse. */
  ghost predicate Closed(p: seq<int>, nn: nat, s: set<int>)
    requires Permutation(p, nn)
  {
    && (forall k :: k in s ==> 1 <= k <= nn)
    && (forall k :: 1 <= k <= nn ==> ClosedAt(p, s, k))
  }

  ghost predicate ClosedAt(p: seq<int>, s: set<int>, k: int)
    requires 0 <= k < |p|
  {
    k in s <==> p[k] in s
  }

  lemma {:induction false} IterateStays(p: seq<int>, nn: nat, s: set<int>, k: int, n: nat)
    requires Permutation(p, nn) && Closed(p, nn, s) && k in s
    ensures Iterate(p, nn, k, n) in s
    decreases n
  {
    if n > 0 {
      assert ClosedAt(p, s, k);
      IterateStays(p, nn, s, p[k], n - 1);
    }
  }

  /** c starts at some index and follows the permutation without repeating. */
  ghost predicate Path(p: seq<int>, nn: nat, c: seq<int>)
    requires Permutation(p, nn)
  {
    && c != []
    && (forall t :: 0 <= t < |c| ==> 1 <= c[t] <= nn)
    && (forall t :: 0 <= t < |c| - 1 ==> c[t + 1] == p[c[t]])
    && (forall t, u :: 0 <= t < u < |c| ==> c[t] != c[u])
  }

  /** A path that returns to its start: one whole cycle. */
  ghost predicate Cycle(p: seq<int>, nn: nat, c: seq<int>)
    requires Permutation(p, nn)
  {
    Path(p, nn, c) && p[c[|c| - 1]] == c[0]
  }

  ghost function Indices(nn: nat): (s: set<int>)
    ensures forall k :: k in s <==> 1 <= k <= nn
  {
    if nn == 0 then {} else Indices(nn - 1) + {nn}
  }

  ghost function Elements(c: seq<int>): set<int> {
    set t | 0 <= t < |c| :: c[t]
  }

  lemma PathExtends(p: seq<int>, nn: nat, c: seq<int>)
    requires Permutation(p, nn) && Path(p, nn, c) && p[c[|c| - 1]] != c[0]
    ensures Path(p, nn, c + [p[c[|c| - 1]]])
    ensures p[c[|c| - 1]] !in Elements(c)
  {
    var last := |c| - 1;
    forall t | 0 <= t < |c| ensures c[t] != p[c[last]] {
      if t > 0 {
        assert c[t] == p[c[t - 1]];
        assert c[t - 1] != c[last];
      }
    }
  }

  lemma CycleClosed(p: seq<int>, nn: nat, c: seq<int>)
    requires Permutation(p, nn) && Cycle(p, nn, c)
    ensures Closed(p, nn, Elements(c))
  {
    forall k | 1 <= k <= nn ensures ClosedAt(p, Elements(c), k) {
      if k in Elements(c) {
        var t :| 0 <= t < |c| && c[t] == k;
        assert p[k] == c[if t == |c| - 1 then 0 else t + 1];
      }
      if p[k] in Elements(c) {
        var t :| 0 <= t < |c| && c[t] == p[k];
        var u := if t == 0 then |c| - 1 else t - 1;
        assert p[c[u]] == p[k];
        assert c[u] in Elements(c);
      }
    }
  }

  lemma {:induction false} PathReturns(p: seq<int>, nn: nat, c: seq<int>, t: nat)
    requires Permutation(p, nn) && Cycle(p, nn, c) && t < |c|
    ensures Iterate(p, nn, c[t], |c| - t) == c[0]
    decreases |c| - t
  {
    if t < |c| - 1 {
      PathReturns(p, nn, c, t + 1);
    } else {
      assert Iterate(p, nn, c[0], 0) == c[0];
    }
  }

  lemma LeadersOfCycle(p: seq<int>, nn: nat, c: seq<int>, t: nat)
    requires Permutation(p, nn) && Cycle(p, nn, c) && t < |c|
    requires forall u :: 0 <= u < |c| ==> c[0] <= c[u]
    ensures Leader(p, nn, c[t]) <==> t == 0
  {
    CycleClosed(p, nn, c);
    if t == 0 {
      forall n: nat ensures c[0] <= Iterate(p, nn, c[0], n) {
        IterateStays(p, nn, Elements(c), c[0], n);
      }
    } else {
      PathReturns(p, nn, c, t);
      assert c[0] != c[t];
    }
  }

  /** Follows the permutation from j until the cycle closes. */
  lemma CycleFrom(p: seq<int>, nn: nat, j: int) returns (c: seq<int>)
    requires Permutation(p, nn) && 1 <= j <= nn
    ensures Cycle(p, nn, c) && c[0] == j
  {
    c := [j];
    var all := Indices(nn);
    while p[c[|c| - 1]] != j
      invariant Path(p, nn, c) && c[0] == j
      invariant Elements(c) <= all
      decreases all - Elements(c)
    {
      var k := p[c[|c| - 1]];
      PathExtends(p, nn, c);
      var c' := c + [k];
      assert c'[|c|] in Elements(c');
      forall x | x in Elements(c) ensures x in Elements(c') {
        var t :| 0 <= t < |c| && c[t] == x;
        assert c'[t] == x;
      }
      c := c';
    }
  }

  /** Every index lies on the cycle of some leader. */
  lemma LeaderOf(p: seq<int>, nn: nat, k: int) returns (j: int)
    requires Permutation(p, nn) && 1 <= k <= nn
    ensures 1 <= j <= k && Leader(p, nn, j)
    ensures forall s :: Closed(p, nn, s) && j in s ==> k in s
    ensures p[k] != k ==> p[j] != j
  {
    var c := CycleFrom(p, nn, k);
    CycleClosed(p, nn, c);
    var t := 0;
    var i := 1;
    while i < |c|
      invariant 1 <= i <= |c| && 0 <= t < i
      invariant forall u :: 0 <= u < i ==> c[t] <= c[u]
    {
      if c[i] < c[t] { t := i; }
      i := i + 1;
    }
    j := c[t];
    assert c[t] in Elements(c);
    forall n: nat ensures j <= Iterate(p, nn, j, n) {
      IterateStays(p, nn, Elements(c), j, n);
      var u :| 0 <= u < |c| && c[u] == Iterate(p, nn, j, n);
    }
    forall s | Closed(p, nn, s) && j in s ensures k in s {
      PathReturns(p, nn, c, t);
      IterateStays(p, nn, s, j, |c| - t);
    }
    if p[j] == j {
      CycleOfFixedPoint(p, nn, c, t);
    }
  }

  lemma CycleOfFixedPoint(p: seq<int>, nn: nat, c: seq<int>, t: nat)
    requires Permutation(p, nn) && Cycle(p, nn, c) && t < |c| && p[c[t]] == c[t]
    ensures |c| == 1
  {
    var u := if t == |c| - 1 then 0 else t + 1;
    assert c[u] == c[t];
  }
}

/**
 * The stage of fftmx that undoes the order of the square-free factors: the counter that
 * fills np, the cycle marking in np and the block rotation, for an index increment of one.
 */
module FftReorder {
  import opened Naturals
  import opened MixedRadix
  import opened Cycles

  // ----- the reverse-carry counter -----

  /** Overwrites the square-free factors by their cumulative products from the right. */
  method CumulateFactors(nfac: array<nat>, kt: nat, nn: nat)
    requires kt <= nn < nfac.Length
    modifies nfac
    ensures forall i :: kt <= i <= nn ==> nfac[i] == Product(old(nfac[i..nn]))
    ensures forall i :: 0 <= i < kt ==> nfac[i] == old(nfac[i])
  {
    ghost var fs := nfac[..];
    nfac[nn] := 1;
    var j := nn;
    while j != kt
      invariant kt <= j <= nn
      invariant forall i :: 0 <= i < j ==> nfac[i] == fs[i]
      invariant forall i :: j <= i <= nn ==> nfac[i] == Product(fs[i..nn])
    {
      j := j - 1;
      assert fs[j..nn][1..] == fs[j + 1..nn];
      nfac[j] := nfac[j] * nfac[j + 1];
    }
    forall i | kt <= i <= nn ensures nfac[i] == Product(old(nfac[i..nn])) {
      assert fs[i..nn] == old(nfac[i..nn]);
    }
  }

  /** nfac[kt..] holds the products of the suffixes of fs. */
  ghost predicate Cumulative(nfac: seq<nat>, kt: nat, fs: seq<nat>) {
    && kt + |fs| < |nfac|
    && forall i :: 0 <= i <= |fs| ==> nfac[kt + i] == Product(fs[i..])
  }

  lemma CumulativeAt(nfac: seq<nat>, kt: nat, fs: seq<nat>, i: nat)
    requires Cumulative(nfac, kt, fs) && i <= |fs|
    ensures kt + |fs| < |nfac| && nfac[kt + i] == Product(fs[i..])
  {
  }

  /** One step of the counter: jj becomes the next reversed index. */
  method ReverseCarry(nfac: array<nat>, kt: nat, jj: nat, ghost fs: seq<nat>) returns (jj': nat)
    requires Cumulative(nfac[..], kt, fs) && Positive(fs)
    requires jj + 1 < Product(fs)
    ensures jj' == Carry(fs, jj)
  {
    ghost var rest := fs;
    ghost var i := 0;
    assert fs[0..] == fs && fs != [];
    CumulativeAt(nfac[..], kt, fs, 0);
    CumulativeAt(nfac[..], kt, fs, 1);
    hide Cumulative, Carry, Product, Positive;
    var k2 := nfac[kt];
    var k := kt + 1;
    var kk := nfac[k];
    jj' := jj + kk;
    while jj' >= k2
      invariant 0 <= i < |fs| && k == kt + i + 1 && rest == fs[i..] && Positive(rest)
      invariant k2 == Product(rest) && kk == Product(rest[1..])
      invariant kk <= jj' && jj' - kk + 1 < k2 && Carry(rest, jj' - kk) == Carry(fs, jj)
      decreases |fs| - i
    {
      CarryOn(rest, jj', kk);
      assert rest[1..] == fs[i + 1..];
      CumulativeAt(nfac[..], kt, fs, i + 2);
      rest := rest[1..];
      assert rest[1..] == fs[i + 2..];
      jj' := jj' - k2;
      k2 := kk;
      k := k + 1;
      kk := nfac[k];
      jj' := jj' + kk;
      i := i + 1;
    }
    CarryHere(rest, jj', kk);
  }

  /** The leading digit overflows: the carry goes on behind it. */
  lemma CarryOn(fs: seq<nat>, y: nat, p: nat)
    requires Positive(fs) && fs != [] && p == Product(fs[1..]) && p <= y && y - p + 1 < Product(fs) <= y
    ensures |fs| > 1 && Positive(fs[1..])
    ensures y - Product(fs) + 1 < p && Carry(fs, y - p) == Carry(fs[1..], y - Product(fs))
  {
    assert fs[1..] == [] || |fs| > 1;
    CarryRest(fs[0], p, y - p);
  }

  lemma CarryHere(fs: seq<nat>, y: nat, p: nat)
    requires Positive(fs) && fs != [] && p == Product(fs[1..]) && p <= y < Product(fs) && y - p + 1 < Product(fs)
    ensures Carry(fs, y - p) == y
  {
  }

  /** Fills np[1..nn] with the digit reversal of each index over fs. */
  method ReverseDigits(np: array<int>, nfac: array<nat>, kt: nat, ghost fs: seq<nat>) returns (nn: nat)
    requires Cumulative(nfac[..], kt, fs) && Positive(fs)
    requires 2 <= Product(fs) <= np.Length
    modifies np
    ensures nn == Product(fs) - 1
    ensures forall j :: 1 <= j <= nn ==> np[j] == Reversal(fs, j)
  {
    assert fs[0..] == fs;
    nn := nfac[kt] - 1;
    var jj := 0;
    var j := 1;
    ReversalOfZero(fs);
    while j <= nn
      invariant 1 <= j <= nn + 1 == Product(fs)
      invariant jj == Reversal(fs, j - 1)
      invariant forall l :: 1 <= l < j ==> np[l] == Reversal(fs, l)
    {
      CarryIsNext(fs, j - 1);
      jj := ReverseCarry(nfac, kt, jj, fs);
      np[j] := jj;
      j := j + 1;
    }
  }

  lemma {:induction false} ReversalOfZero(fs: seq<nat>)
    requires Positive(fs)
    ensures Reversal(fs, 0) == 0
  {
    if fs != [] {
      ReversalOfZero(fs[1..]);
      assert 0 * Product(fs[1..]) == 0;
    }
  }

  /** The permutation the counter leaves in np. */
  ghost function ReversalSeq(fs: seq<nat>): (p: seq<int>)
    requires Positive(fs)
    ensures |p| == Product(fs)
    ensures forall k :: 0 <= k < |p| ==> p[k] == Reversal(fs, k)
  {
    seq(Product(fs), k requires 0 <= k => Reversal(fs, k))
  }

  lemma ReversalIsPermutation(fs: seq<nat>)
    requires Positive(fs) && Product(fs) >= 2
    ensures Permutation(ReversalSeq(fs), Product(fs) - 1)
    ensures ReversalSeq(fs)[Product(fs) - 1] == Product(fs) - 1
  {
    var nn := Product(fs) - 1;
    var p := ReversalSeq(fs);
    ReversalOfZero(fs);
    ReversalFixesLast(fs);
    forall k | 1 <= k <= nn ensures 1 <= p[k] <= nn {
      ReversalBound(fs, k);
      if p[k] == p[0] { ReversalInjective(fs, k, 0); }
    }
    forall k, l | 1 <= k < l <= nn ensures p[k] != p[l] {
      if p[k] == p[l] { ReversalInjective(fs, k, l); }
    }
  }

  /** With two or more factors the index 1 moves: the downward scan can stop there. */
  lemma ReversalMovesOne(fs: seq<nat>)
    requires Positive(fs) && |fs| >= 2 && fs[0] >= 2 && fs[1] >= 2
    ensures Reversal(fs, 1) >= 2 && Product(fs) >= 2
  {
    var p := Product(fs[1..]);
    assert fs[1..][0] == fs[1];
    ProductPositive(fs[1..][1..]);
    MulMono(2, 1, fs[1], Product(fs[1..][1..]));
    MulMono(2, 2, fs[0], p);
    DivModUnique(1, fs[0], 0, 1);
    assert 1 * p == p;
  }

  // ----- marking the cycles -----

  /** The final marks: the sign is positive exactly at the leaders of nontrivial cycles. */
  ghost predicate MarkedAt(np: seq<int>, p: seq<int>, nn: nat, k: int)
    requires Permutation(p, nn) && |np| > nn && 1 <= k <= nn
  {
    np[k] == if Leader(p, nn, k) && p[k] != k then p[k] else -p[k]
  }

  /** The marks cycle by cycle: positive at the least index of a cycle longer than one. */
  ghost predicate CycleMarks(p: seq<int>, nn: nat, marks: seq<int>) {
    && Permutation(p, nn) && |marks| == nn + 1
    && forall c :: Cycle(p, nn, c) && LeastFirst(c) ==> MarksOnCycle(p, marks, c)
  }

  ghost predicate LeastFirst(c: seq<int>) {
    forall u :: 0 <= u < |c| ==> c[0] <= c[u]
  }

  ghost predicate MarksOnCycle(p: seq<int>, marks: seq<int>, c: seq<int>) {
    forall t :: 0 <= t < |c| && 0 <= c[t] < |p| && 0 <= c[t] < |marks| ==>
      marks[c[t]] == if t == 0 && |c| > 1 then p[c[t]] else -p[c[t]]
  }

  lemma MarksExist(p: seq<int>, nn: nat) returns (marks: seq<int>)
    requires Permutation(p, nn)
    ensures CycleMarks(p, nn, marks)
    ensures forall k :: 1 <= k <= nn ==> MarkedAt(marks, p, nn, k)
  {
    marks := seq(nn + 1, k requires 0 <= k <= nn =>
      if 1 <= k && Leader(p, nn, k) && p[k] != k then p[k] else -p[k]);
    forall c | Cycle(p, nn, c) && LeastFirst(c) ensures MarksOnCycle(p, marks, c) {
      forall t | 0 <= t < |c|
        ensures marks[c[t]] == if t == 0 && |c| > 1 then p[c[t]] else -p[c[t]]
      {
        LeadersOfCycle(p, nn, c, t);
        if t == 0 && p[c[0]] == c[0] { CycleOfFixedPoint(p, nn, c, 0); }
      }
    }
  }

  /** Part way: np is final on done, which holds 1..j, and untouched elsewhere. */
  ghost predicate Marking(np: seq<int>, p: seq<int>, nn: nat, marks: seq<int>, j: nat, done: set<int>) {
    && Permutation(p, nn) && |marks| == nn + 1 && |np| > nn && Closed(p, nn, done)
    && (forall k :: 1 <= k <= j && k <= nn ==> k in done)
    && (forall k :: k in done && k > j ==> marks[k] < 0)
    && (forall k {:trigger np[k]} :: 1 <= k <= nn ==> np[k] == if k in done then marks[k] else p[k])
  }

  /** np0 with its sign changed along the path c, except at the start of c. */
  ghost predicate NegatedAlong(np0: seq<int>, np: seq<int>, p: seq<int>, c: seq<int>) {
    && |np| == |np0|
    && (forall t :: 0 <= t < |c| && 0 <= c[t] < |np| && c[t] < |p| ==>
      np[c[t]] == if t == 0 then p[c[t]] else -p[c[t]])
    && (forall k :: 0 <= k < |np| && k !in Elements(c) ==> np[k] == np0[k])
  }

  /** Negates np along the cycle of j, except at j itself. */
  method NegateCycle(np: array<int>, j: int, ghost p: seq<int>, ghost nn: nat, ghost done: set<int>)
    returns (ghost c: seq<int>)
    requires Permutation(p, nn) && Closed(p, nn, done) && nn < np.Length
    requires 1 <= j <= nn && j !in done
    requires forall k :: 1 <= k <= nn && k !in done ==> np[k] == p[k]
    modifies np
    ensures Cycle(p, nn, c) && c[0] == j
    ensures Elements(c) !! done
    ensures NegatedAlong(old(np[..]), np[..], p, c)
  {
    ghost var np0 := np[..];
    ghost var all := Indices(nn);
    c := [j];
    var kk := np[j];
    while kk != j
      invariant Path(p, nn, c) && c[0] == j && kk == p[c[|c| - 1]]
      invariant Elements(c) <= all && Elements(c) !! done
      invariant NegatedAlong(np0, np[..], p, c)
      decreases all - Elements(c)
    {
      PathExtends(p, nn, c);
      ElementsSnoc(c, kk);
      assert c[|c| - 1] in Elements(c);
      assert ClosedAt(p, done, c[|c| - 1]);
      var k := kk;
      kk := np[k];
      ghost var np1 := np[..];
      np[k] := -kk;
      NegateStep(np0, np1, p, nn, c, k);
      c := c + [k];
    }
  }

  lemma NegateStep(np0: seq<int>, np: seq<int>, p: seq<int>, nn: nat, c: seq<int>, k: int)
    requires Permutation(p, nn) && Path(p, nn, c) && 1 <= k <= nn < |np| && k !in Elements(c)
    requires NegatedAlong(np0, np, p, c) && np[k] == p[k]
    ensures NegatedAlong(np0, np[k := -p[k]], p, c + [k])
  {
    ElementsSnoc(c, k);
    var c', np' := c + [k], np[k := -p[k]];
    forall t | 0 <= t < |c| ensures np'[c[t]] == np[c[t]] {
      assert c[t] in Elements(c);
    }
  }

  lemma ElementsSnoc(c: seq<int>, x: int)
    ensures Elements(c + [x]) == Elements(c) + {x}
  {
    var c' := c + [x];
    assert c'[|c|] == x;
    forall y | y in Elements(c) ensures y in Elements(c') {
      var t :| 0 <= t < |c| && c[t] == y;
      assert c'[t] == y;
    }
  }

  lemma ClosedUnion(p: seq<int>, nn: nat, s: set<int>, t: set<int>)
    requires Permutation(p, nn) && Closed(p, nn, s) && Closed(p, nn, t)
    ensures Closed(p, nn, s + t)
  {
    forall k | 1 <= k <= nn ensures ClosedAt(p, s + t, k) {
      assert ClosedAt(p, s, k) && ClosedAt(p, t, k);
    }
  }

  lemma MarksOfCycle(p: seq<int>, nn: nat, marks: seq<int>, c: seq<int>)
    requires CycleMarks(p, nn, marks) && Cycle(p, nn, c) && LeastFirst(c)
    ensures forall k :: k in Elements(c) ==>
      marks[k] == if k == c[0] && p[k] != k then p[k] else -p[k]
  {
    assert MarksOnCycle(p, marks, c);
    forall k | k in Elements(c)
      ensures marks[k] == if k == c[0] && p[k] != k then p[k] else -p[k]
    {
      var t :| 0 <= t < |c| && c[t] == k;
      if p[k] == k { CycleOfFixedPoint(p, nn, c, t); }
      if |c| == 1 { assert p[c[0]] == c[0]; }
    }
  }

  lemma NegatedOnCycle(np0: seq<int>, np: seq<int>, p: seq<int>, nn: nat, c: seq<int>)
    requires Permutation(p, nn) && Cycle(p, nn, c) && NegatedAlong(np0, np, p, c) && |np| > nn
    ensures forall k :: k in Elements(c) ==> np[k] == if k == c[0] then p[k] else -p[k]
  {
    forall k | k in Elements(c) ensures np[k] == if k == c[0] then p[k] else -p[k] {
      var t :| 0 <= t < |c| && c[t] == k;
    }
  }

  lemma FreshCycleIsHigh(p: seq<int>, nn: nat, c: seq<int>, j: nat, done: set<int>)
    requires Permutation(p, nn) && Cycle(p, nn, c) && c[0] == j && Elements(c) !! done
    requires forall k :: 1 <= k < j ==> k in done
    ensures LeastFirst(c) && j in Elements(c)
    ensures forall k :: k in Elements(c) ==> j <= k <= nn
  {
    assert c[0] in Elements(c);
    forall u | 0 <= u < |c| ensures c[0] <= c[u] {
      assert c[u] in Elements(c);
    }
  }

  /** After one more closed set e, with least element j, has got its final marks. */
  lemma SetMarked(np0: seq<int>, np: seq<int>, p: seq<int>, nn: nat, marks: seq<int>, j: nat, done: set<int>,
                  e: set<int>)
    requires 1 <= j <= nn && Marking(np0, p, nn, marks, j - 1, done) && |np| == |np0|
    requires Closed(p, nn, e) && j in e
    requires forall k :: k in e ==> np[k] == marks[k] && (k > j ==> marks[k] < 0)
    requires forall k :: 1 <= k <= nn && k !in e ==> np[k] == np0[k]
    ensures Marking(np, p, nn, marks, j, done + e)
  {
    ClosedUnion(p, nn, done, e);
  }

  /** After the nontrivial cycle of j has been negated. */
  lemma CycleMarked(np0: seq<int>, np: seq<int>, p: seq<int>, nn: nat, marks: seq<int>, j: nat, done: set<int>,
                    c: seq<int>)
    requires 1 <= j <= nn && Marking(np0, p, nn, marks, j - 1, done) && CycleMarks(p, nn, marks)
    requires Cycle(p, nn, c) && c[0] == j && Elements(c) !! done && p[j] != j
    requires NegatedAlong(np0, np, p, c)
    ensures Marking(np, p, nn, marks, j, done + Elements(c))
    ensures marks[j] > 0
  {
    CycleClosed(p, nn, c);
    FreshCycleIsHigh(p, nn, c, j, done);
    MarksOfCycle(p, nn, marks, c);
    NegatedOnCycle(np0, np, p, nn, c);
    SetMarked(np0, np, p, nn, marks, j, done, Elements(c));
  }

  lemma FixedPointMarked(np: seq<int>, p: seq<int>, nn: nat, marks: seq<int>, j: nat, done: set<int>)
    requires 1 <= j <= nn && Marking(np, p, nn, marks, j - 1, done) && j !in done && p[j] == j
    requires CycleMarks(p, nn, marks)
    ensures Marking(np[j := -(j as int)], p, nn, marks, j, done + {j})
    ensures marks[j] < 0
  {
    var c := [j];
    assert Cycle(p, nn, c) && LeastFirst(c);
    CycleClosed(p, nn, c);
    MarksOfCycle(p, nn, marks, c);
    assert c[0] in Elements(c);
    assert Elements(c) == {j};
    SetMarked(np, np[j := -(j as int)], p, nn, marks, j, done, {j});
  }

  lemma LastNotOnCycle(p: seq<int>, nn: nat, c: seq<int>)
    requires nn >= 1 && Permutation(p, nn) && p[nn] == nn && Cycle(p, nn, c) && c[0] != nn
    ensures nn !in Elements(c)
  {
    if t :| 0 <= t < |c| && c[t] == nn {
      CycleOfFixedPoint(p, nn, c, t);
    }
  }

  /** The scan upwards for the next index that is not marked negative. */
  method NextUnmarked(np: array<int>, nn: nat, j0: nat, ghost p: seq<int>, ghost done: set<int>)
    returns (j: nat, kk: int)
    requires Permutation(p, nn) && j0 < nn < np.Length && nn !in done
    requires forall k :: 1 <= k <= j0 ==> k in done
    requires forall k :: j0 < k <= nn ==> if k in done then np[k] < 0 else np[k] == p[k]
    ensures j0 < j <= nn && kk == np[j] == p[j] && j !in done
    ensures forall k :: 1 <= k < j ==> k in done
  {
    j := j0 + 1;
    kk := np[j];
    while kk < 0
      invariant j0 < j <= nn && kk == np[j]
      invariant forall k :: 1 <= k < j ==> k in done
      decreases nn - j
    {
      assert j in done;
      j := j + 1;
      kk := np[j];
    }
  }

  /** k3 is the last positive position of marks in 1..j, or still k3in. */
  ghost predicate LastPositive(marks: seq<int>, j: nat, k3in: int, k3: int) {
    && (k3 == k3in || (1 <= k3 <= j && k3 < |marks| && marks[k3] > 0))
    && (forall k :: 1 <= k <= j && k < |marks| && marks[k] > 0 ==> k <= k3 <= j && k3 < |marks| && marks[k3] > 0)
  }

  /** Finds all cycles of np[1..nn]; returns the greatest nontrivial leader, if any. */
  method MarkCycles(np: array<int>, nn: nat, k3in: int, ghost p: seq<int>) returns (k3: int)
    requires 1 <= nn < np.Length && Permutation(p, nn) && p[nn] == nn
    requires forall k :: 1 <= k <= nn ==> np[k] == p[k]
    modifies np
    ensures forall k :: 1 <= k <= nn ==> MarkedAt(np[..], p, nn, k)
    ensures LastPositive(np[..], nn, k3in, k3)
  {
    ghost var marks := MarksExist(p, nn);
    k3 := MarkAll(np, nn, k3in, p, marks);
    forall k | 1 <= k <= nn ensures MarkedAt(np[..], p, nn, k) {
      assert MarkedAt(marks, p, nn, k);
      assert np[..][k] == marks[k];
    }
  }

  /** One round of the scan: the next unmarked index and its cycle. */
  method MarkNext(np: array<int>, nn: nat, j0: nat, ghost p: seq<int>, ghost marks: seq<int>, ghost done: set<int>)
    returns (j: nat, kk: int, ghost done': set<int>)
    requires CycleMarks(p, nn, marks)
    requires j0 < nn < np.Length && Marking(np[..], p, nn, marks, j0, done) && nn !in done && p[nn] == nn
    modifies np
    ensures j0 < j <= nn && kk == p[j]
    ensures Marking(np[..], p, nn, marks, j, done')
    ensures j < nn ==> nn !in done'
    ensures marks[j] > 0 <==> kk != j
    ensures forall k :: j0 < k < j ==> marks[k] < 0
  {
    ghost var np0 := np[..];
    assert forall k :: 1 <= k <= nn ==> np[k] == np0[k];
    j, kk := NextUnmarked(np, nn, j0, p, done);
    assert Marking(np0, p, nn, marks, j - 1, done);
    if kk != j {
      ghost var c := NegateCycle(np, j, p, nn, done);
      CycleMarked(np0, np[..], p, nn, marks, j, done, c);
      LastNotOnCycle(p, nn, c);
      done' := done + Elements(c);
    } else {
      np[j] := -(j as int);
      FixedPointMarked(np0, p, nn, marks, j, done);
      done' := done + {j};
    }
  }

  lemma LastPositiveStep(marks: seq<int>, j0: nat, j: nat, k3in: int, k3: int)
    requires LastPositive(marks, j0, k3in, k3) && j0 < j < |marks|
    requires forall k :: j0 < k < j ==> marks[k] < 0
    ensures LastPositive(marks, j, k3in, if marks[j] > 0 then j else k3)
  {
  }

  method MarkAll(np: array<int>, nn: nat, k3in: int, ghost p: seq<int>, ghost marks: seq<int>) returns (k3: int)
    requires 1 <= nn < np.Length && CycleMarks(p, nn, marks) && p[nn] == nn
    requires forall k :: 1 <= k <= nn ==> np[k] == p[k]
    modifies np
    ensures forall k :: 1 <= k <= nn ==> np[k] == marks[k]
    ensures LastPositive(marks, nn, k3in, k3)
  {
    k3 := k3in;
    var j := 0;
    ghost var done: set<int> := {};
    while true
      invariant 0 <= j < nn && nn !in done
      invariant Marking(np[..], p, nn, marks, j, done)
      invariant LastPositive(marks, j, k3in, k3)
      decreases nn - j
    {
      ghost var j0 := j;
      var kk;
      j, kk, done := MarkNext(np, nn, j, p, marks, done);
      LastPositiveStep(marks, j0, j, k3in, k3);
      if kk != j {
        k3 := j;
      } else if j == nn {
        break;
      }
    }
  }
}
