/** rdqpsrt: the list of intervals in descending order of their error estimates. */
module ErrorList {

  /** Length of the list that is maintained once there are last intervals. */
  function ListLength(limit: nat, last: nat): int {
    if last > limit / 2 + 2 then limit + 3 - last else last
  }

  /** How many leading entries are certainly the largest errors of all. */
  function Exact(limit: nat, last: nat): int {
    if last > limit / 2 + 2 then limit + 1 - last else last
  }

  ghost predicate Distinct(l: seq<int>) {
    forall i, j :: 0 <= i < j < |l| ==> l[i] != l[j]
  }

  /** All entries are interval numbers 1..last. */
  ghost predicate InRange(l: seq<int>, last: nat) {
    forall i :: 0 <= i < |l| ==> 1 <= l[i] <= last
  }

  ghost predicate Descending(e: seq<real>, l: seq<int>)
    requires forall i :: 0 <= i < |l| ==> 0 <= l[i] < |e|
  {
    forall i, j :: 0 <= i < j < |l| ==> e[l[i]] >= e[l[j]]
  }

  /** x is listed, or the first k entries all have at least its error. */
  ghost predicate Covered(e: seq<real>, l: seq<int>, k: int, x: int)
    requires 0 <= x < |e| && k <= |l| && forall i :: 0 <= i < |l| ==> 0 <= l[i] < |e|
  {
    x in l || forall i :: 0 <= i < k ==> e[x] <= e[l[i]]
  }

  /** The invariant of the list. */
  ghost predicate Ordered(e: seq<real>, l: seq<int>, limit: nat, last: nat) {
    && 2 <= last <= limit && last < |e|
    && |l| == ListLength(limit, last)
    && InRange(l, last) && Distinct(l) && Descending(e, l)
    && (last <= limit / 2 + 2 ==> forall x :: 1 <= x <= last ==> x in l)
    && (forall x :: 1 <= x <= last ==> Covered(e, l, Exact(limit, last), x))
  }

  /** The first k entries are k largest errors: nothing after or outside them is larger. */
  lemma LargestFirst(e: seq<real>, l: seq<int>, limit: nat, last: nat, k: nat, x: int)
    requires Ordered(e, l, limit, last) && k < Exact(limit, last) && 1 <= x <= last
    requires x !in l[..k]
    ensures e[x] <= e[l[k]]
  {
    assert Covered(e, l, Exact(limit, last), x);
    if x in l {
      var i :| 0 <= i < |l| && l[i] == x;
      PrefixMember(l, k, i);
    }
  }

  lemma PrefixMember(l: seq<int>, k: nat, i: nat)
    requires i < |l|
    ensures i < k <= |l| ==> l[i] in l[..k]
  {
    if i < k <= |l| {
      assert l[..k][i] == l[i];
    }
  }

  // ----- inserting into a descending list -----

  /** Everything in a is at least v, everything in b at most v. */
  ghost predicate Splits(e: seq<real>, a: seq<int>, b: seq<int>, v: real)
    requires forall i :: 0 <= i < |a| ==> 0 <= a[i] < |e|
    requires forall i :: 0 <= i < |b| ==> 0 <= b[i] < |e|
  {
    && (forall i :: 0 <= i < |a| ==> e[a[i]] >= v)
    && (forall i :: 0 <= i < |b| ==> v >= e[b[i]])
  }

  function Insert(a: seq<int>, x: int, b: seq<int>): (l: seq<int>)
    ensures |l| == |a| + 1 + |b|
    ensures forall y :: y in l <==> y == x || y in a + b
  {
    InsertMembers(a, x, b);
    a + [x] + b
  }

  lemma InsertMembers(a: seq<int>, x: int, b: seq<int>)
    ensures forall y :: y in a + [x] + b <==> y == x || y in a + b
  {
  }

  lemma InsertKeepsOrder(e: seq<real>, a: seq<int>, b: seq<int>, x: int, last: nat)
    requires last < |e| && InRange(a + b, last) && 1 <= x <= last
    requires Distinct(a + b) && Descending(e, a + b) && x !in a + b
    requires InRange(a, last) && InRange(b, last) && Splits(e, a, b, e[x])
    ensures InRange(Insert(a, x, b), last) && Distinct(Insert(a, x, b)) && Descending(e, Insert(a, x, b))
  {
    var l, l' := a + b, Insert(a, x, b);
    forall i | 0 <= i < |l'| ensures 1 <= l'[i] <= last {
      assert l'[i] in l';
    }
    forall i, j | 0 <= i < j < |l'| ensures l'[i] != l'[j] && e[l'[i]] >= e[l'[j]] {
      if i == |a| {
        assert l'[j] == b[j - 1 - |a|] == l[j - 1];
      } else if j == |a| {
        assert l'[i] == a[i] == l[i];
      } else {
        var i', j' := if i < |a| then i else i - 1, if j < |a| then j else j - 1;
        assert l[i'] == l'[i] && l[j'] == l'[j];
      }
    }
  }

  /** l without its entry at h, cut to its first n entries. */
  ghost function Kept(l: seq<int>, h: int, n: int): seq<int>
    requires 0 <= h < n <= |l|
  {
    l[..h] + l[h + 1..n]
  }

  lemma KeptIsOrdered(e0: seq<real>, e: seq<real>, l: seq<int>, h: int, n: int, last: nat)
    requires 0 <= h < n <= |l| && last < |e| && last < |e0|
    requires InRange(l, last) && Distinct(l) && Descending(e0, l)
    requires forall x :: 1 <= x <= last && x != l[h] ==> e[x] == e0[x]
    ensures InRange(Kept(l, h, n), last) && Distinct(Kept(l, h, n)) && Descending(e, Kept(l, h, n))
    ensures l[h] !in Kept(l, h, n)
    ensures forall i :: 0 <= i < n && i != h ==> l[i] in Kept(l, h, n)
  {
    var k := Kept(l, h, n);
    assert |k| == n - 1;
    forall i | 0 <= i < |k| ensures k[i] == l[if i < h then i else i + 1] {
    }
    forall i, j | 0 <= i < j < |k| ensures k[i] != k[j] && e[k[i]] >= e[k[j]] {
      var i', j' := if i < h then i else i + 1, if j < h then j else j + 1;
      assert k[i] == l[i'] && k[j] == l[j'];
      assert l[i'] != l[h] && l[j'] != l[h];
      assert e0[l[i']] >= e0[l[j']];
    }
    forall i | 0 <= i < n && i != h ensures l[i] in k {
      assert k[if i < h then i else i - 1] == l[i];
    }
  }

  // ----- the step: the error of one interval changes and a new interval arrives -----

  /**
   * The new list: kept entries of the old one with the changed interval maxerr and the new
   * interval last put in.
   */
  ghost predicate Merged(e: seq<real>, kept: seq<int>, l': seq<int>, maxerr: int, last: nat)
  {
    && last < |e|
    && |l'| == |kept| + 2
    && InRange(l', last) && Distinct(l') && Descending(e, l')
    && (forall y :: y in l' <==> y == maxerr || y == last || y in kept)
  }

  lemma OutsideIsBelow(e0: seq<real>, e: seq<real>, l: seq<int>, limit: nat, last: nat, h: int, n: int, x: int, y: int)
    requires 3 <= last <= limit && last < |e| && Ordered(e0, l, limit, last - 1)
    requires 0 <= h < n == ListLength(limit, last) - 1 <= |l|
    requires forall z :: 1 <= z < last && z != l[h] ==> e[z] == e0[z]
    requires 1 <= x < last && x != l[h] && x !in Kept(l, h, n) && y in Kept(l, h, n)
    ensures e[x] <= e[y]
    ensures last > limit / 2 + 2
  {
    var k := Kept(l, h, n);
    KeptIsOrdered(e0, e, l, h, n, last - 1);
    var q :| 0 <= q < |k| && k[q] == y;
    var q' := if q < h then q else q + 1;
    assert l[q'] == y;
    assert Covered(e0, l, Exact(limit, last - 1), x);
    if x in l {
      var r :| 0 <= r < |l| && l[r] == x;
      assert r >= n;
      assert e0[l[q']] >= e0[l[r]];
    }
  }

  lemma MergedIsOrdered(e0: seq<real>, e: seq<real>, l: seq<int>, l': seq<int>, limit: nat, last: nat, h: int, n: int)
    requires 3 <= last <= limit && last < |e| && Ordered(e0, l, limit, last - 1)
    requires 0 <= h < n == ListLength(limit, last) - 1 <= |l|
    requires forall z :: 1 <= z < last && z != l[h] ==> e[z] == e0[z]
    requires Merged(e, Kept(l, h, n), l', l[h], last)
    ensures Ordered(e, l', limit, last)
  {
    var kept := Kept(l, h, n);
    KeptIsOrdered(e0, e, l, h, n, last - 1);
    forall x | 1 <= x <= last
      ensures last <= limit / 2 + 2 ==> x in l'
      ensures Covered(e, l', Exact(limit, last), x)
    {
      if x !in l' {
        MissingIsSmall(e0, e, l, l', limit, last, h, n, x);
      }
    }
  }

  lemma MissingIsSmall(e0: seq<real>, e: seq<real>, l: seq<int>, l': seq<int>, limit: nat, last: nat, h: int, n: int,
                       x: int)
    requires 3 <= last <= limit && last < |e| && Ordered(e0, l, limit, last - 1)
    requires 0 <= h < n == ListLength(limit, last) - 1 <= |l|
    requires forall z :: 1 <= z < last && z != l[h] ==> e[z] == e0[z]
    requires Merged(e, Kept(l, h, n), l', l[h], last)
    requires 1 <= x <= last && x !in l'
    ensures last > limit / 2 + 2
    ensures forall i :: 0 <= i < Exact(limit, last) ==> e[x] <= e[l'[i]]
  {
    var kept := Kept(l, h, n);
    KeptIsOrdered(e0, e, l, h, n, last - 1);
    var m := |l'|;
    // one of the last two entries was in the old list
    var y := if l'[m - 1] in kept then l'[m - 1] else l'[m - 2];
    assert m >= 2;
    assert last <= limit / 2 + 2 ==> |l| == n && x in l;
    forall i | 0 <= i < Exact(limit, last) ensures e[x] <= e[l'[i]] {
      assert l'[i] in l';
      if l'[i] in kept {
        OutsideIsBelow(e0, e, l, limit, last, h, n, x, l'[i]);
      } else {
        assert l'[m - 1] in l' && l'[m - 2] in l';
        assert l'[i] != l'[m - 1] && l'[i] != l'[m - 2] && l'[m - 2] != l'[m - 1];
        assert y in kept;
        OutsideIsBelow(e0, e, l, limit, last, h, n, x, y);
      }
    }
  }

  // ----- the routine -----

  /** iord[1..n] as a list. */
  ghost function ListOf(iord: array<int>, n: int): seq<int>
    requires 0 <= n < iord.Length
    reads iord
  {
    iord[1..n + 1]
  }

  /** iord[1..n] holds list, except that position h is free. */
  ghost predicate Hole(iord: array<int>, h: int, n: int, list: seq<int>)
    reads iord
  {
    && 1 <= h <= n < iord.Length && |list| == n - 1
    && (forall q :: 1 <= q < h ==> iord[q] == list[q - 1])
    && (forall q :: h < q <= n ==> iord[q] == list[q - 2])
  }

  lemma FillHole(iord: seq<int>, h: int, n: int, list: seq<int>)
    requires 1 <= h <= n < |iord| && |list| == n - 1
    requires forall q :: 1 <= q < h ==> iord[q] == list[q - 1]
    requires forall q :: h < q <= n ==> iord[q] == list[q - 2]
    ensures iord[1..n + 1] == Insert(list[..h - 1], iord[h], list[h - 1..])
  {
  }

  /** Moves the changed interval up past smaller errors; only used when nrmax > 1. */
  method MoveUp(elist: array<real>, iord: array<int>, nrmax0: nat, errmax: real, ghost n: int, ghost list: seq<int>,
                ghost last: nat)
    returns (nrmax: nat)
    requires last < elist.Length && InRange(list, last) && Descending(elist[..], list)
    requires 1 <= nrmax0 && Hole(iord, nrmax0, n, list)
    modifies iord
    ensures 1 <= nrmax <= nrmax0 && Hole(iord, nrmax, n, list)
    ensures forall q :: 0 <= q < nrmax - 1 ==> elist[list[q]] >= errmax
    ensures nrmax < nrmax0 ==> errmax > elist[list[nrmax - 1]]
  {
    nrmax := nrmax0;
    var ido := nrmax0 - 1;
    var i := 1;
    while i <= ido
      invariant 1 <= i <= ido + 1 && nrmax == nrmax0 + 1 - i
      invariant Hole(iord, nrmax, n, list)
      invariant nrmax < nrmax0 ==> errmax > elist[list[nrmax - 1]]
    {
      var isucc := iord[nrmax - 1];
      assert isucc == list[nrmax - 2];
      if errmax <= elist[isucc] {
        forall q | 0 <= q < nrmax - 1 ensures elist[list[q]] >= errmax {
          assert q < nrmax - 2 ==> elist[..][list[q]] >= elist[..][list[nrmax - 2]];
        }
        return;
      }
      iord[nrmax] := isucc;
      nrmax := nrmax - 1;
      i := i + 1;
    }
  }

  /** Finds, from the top, the place of the changed interval and puts it there. */
  method PlaceChanged(elist: array<real>, iord: array<int>, nrmax: nat, jbnd: int, maxerr: int, ghost list: seq<int>,
                      ghost last: nat, ghost e: seq<real>)
    returns (h: int)
    requires e == elist[..] && last < |e| && InRange(list, last) && Descending(e, list)
    requires 1 <= maxerr <= last
    requires Hole(iord, nrmax, jbnd, list)
    requires forall q :: 0 <= q < nrmax - 1 ==> e[list[q]] >= e[maxerr]
    modifies iord
    ensures nrmax <= h <= jbnd && iord[h] == maxerr
    ensures ListOf(iord, jbnd) == Insert(list[..h - 1], maxerr, list[h - 1..])
    ensures Splits(e, list[..h - 1], list[h - 1..], e[maxerr])
  {
    hide Descending, Splits, Insert;
    var i := nrmax + 1;
    while i <= jbnd && elist[maxerr] < elist[iord[i]]
      invariant nrmax + 1 <= i <= jbnd + 1 && Hole(iord, i - 1, jbnd, list)
      invariant forall q :: 0 <= q < i - 2 ==> e[list[q]] >= e[maxerr]
    {
      iord[i - 1] := iord[i];
      i := i + 1;
    }
    h := i - 1;
    assert h - 1 < |list| ==> iord[i] == list[h - 1];
    SplitFromBelow(e, list, h - 1, e[maxerr]);
    Fill(iord, h, jbnd, maxerr, list);
  }

  lemma SplitFromBelow(e: seq<real>, list: seq<int>, h: int, v: real)
    requires forall i :: 0 <= i < |list| ==> 0 <= list[i] < |e|
    requires Descending(e, list) && 0 <= h <= |list|
    requires forall q :: 0 <= q < h ==> e[list[q]] >= v
    requires h < |list| ==> v >= e[list[h]]
    ensures Splits(e, list[..h], list[h..], v)
  {
  }

  lemma SplitFromAbove(e: seq<real>, list: seq<int>, h: int, v: real)
    requires forall i :: 0 <= i < |list| ==> 0 <= list[i] < |e|
    requires Descending(e, list) && 0 <= h <= |list|
    requires forall q :: h <= q < |list| ==> v >= e[list[q]]
    requires h > 0 ==> e[list[h - 1]] >= v
    ensures Splits(e, list[..h], list[h..], v)
  {
  }

  method Fill(iord: array<int>, h: int, n: int, x: int, ghost list: seq<int>)
    requires Hole(iord, h, n, list)
    modifies iord
    ensures ListOf(iord, n) == Insert(list[..h - 1], x, list[h - 1..]) && iord[h] == x
  {
    hide Insert;
    iord[h] := x;
    FillHole(iord[..], h, n, list);
  }

  /** Finds, from the bottom, the place of the new interval, at or below position i. */
  method PlaceNew(elist: array<real>, iord: array<int>, i: int, jbnd: int, last: nat, ghost list: seq<int>,
                  ghost e: seq<real>)
    returns (ghost h: int)
    requires 1 < i <= jbnd + 1 && Hole(iord, jbnd + 1, jbnd + 1, list)
    requires e == elist[..] && last < |e| && InRange(list, last) && Descending(e, list)
    requires e[list[i - 2]] >= e[last]
    modifies iord
    ensures i <= h <= jbnd + 1
    ensures ListOf(iord, jbnd + 1) == Insert(list[..h - 1], last, list[h - 1..])
    ensures Splits(e, list[..h - 1], list[h - 1..], e[last])
  {
    hide Descending, Splits, Insert;
    var k := jbnd;
    while k >= i && elist[last] >= elist[iord[k]]
      invariant i - 1 <= k <= jbnd && Hole(iord, k + 1, jbnd + 1, list)
      invariant forall q :: k <= q < jbnd ==> e[last] >= e[list[q]]
      decreases k
    {
      iord[k + 1] := iord[k];
      k := k - 1;
    }
    h := k + 1;
    SplitFromAbove(e, list, h - 1, e[last]);
    Fill(iord, k + 1, jbnd + 1, last, list);
  }

  lemma OpenEnd(iord: array<int>, n: int, list: seq<int>)
    requires 0 <= n < iord.Length - 1 && ListOf(iord, n) == list
    ensures Hole(iord, n + 1, n + 1, list)
  {
    forall q | 1 <= q <= n ensures iord[q] == list[q - 1] {
      assert ListOf(iord, n)[q - 1] == iord[q];
    }
  }

  lemma OpenAt(iord: array<int>, h: int, m: int, n: int)
    requires 1 <= h <= n <= m < iord.Length
    ensures Hole(iord, h, n, Kept(ListOf(iord, m), h - 1, n))
  {
    var l := ListOf(iord, m);
    assert forall q :: 1 <= q <= m ==> iord[q] == l[q - 1];
    var kept := Kept(l, h - 1, n);
    assert |kept| == n - 1;
    forall q | h < q <= n ensures iord[q] == kept[q - 2] {
      assert kept[q - 2] == l[h..n][q - 1 - h];
    }
  }

  lemma HalvesInRange(list: seq<int>, h: int, last: nat)
    requires InRange(list, last) && 0 <= h <= |list|
    ensures list[..h] + list[h..] == list
    ensures InRange(list[..h], last) && InRange(list[h..], last)
  {
  }

  /** Puts the changed interval x and then the new interval last into the kept list. */
  method InsertBoth(elist: array<real>, iord: array<int>, nrmax: nat, jbnd: int, x: int, last: nat,
                    ghost kept: seq<int>, ghost e: seq<real>)
    requires e == elist[..] && last < |e| && 1 <= x < last && jbnd + 1 < iord.Length
    requires InRange(kept, last - 1) && Distinct(kept) && Descending(e, kept) && x !in kept
    requires Hole(iord, nrmax, jbnd, kept) && forall q :: 0 <= q < nrmax - 1 ==> e[kept[q]] >= e[x]
    requires e[x] >= e[last]
    modifies iord
    ensures Merged(e, kept, ListOf(iord, jbnd + 1), x, last)
  {
    hide Merged;
    var h := PlaceChanged(elist, iord, nrmax, jbnd, x, kept, last - 1, e);
    ghost var list := Insert(kept[..h - 1], x, kept[h - 1..]);
    HalvesInRange(kept, h - 1, last - 1);
    InsertKeepsOrder(e, kept[..h - 1], kept[h - 1..], x, last - 1);
    OpenEnd(iord, jbnd, list);
    assert list[h - 1] == x;
    ghost var g := PlaceNew(elist, iord, h + 1, jbnd, last, list, e);
    HalvesInRange(list, g - 1, last - 1);
    MergeNew(e, kept, list, g - 1, x, last);
  }

  lemma MergeNew(e: seq<real>, kept: seq<int>, list: seq<int>, g: int, x: int, last: nat)
    requires 1 <= last < |e| && InRange(list, last - 1) && Distinct(list) && Descending(e, list)
    requires |list| == |kept| + 1 && forall y :: y in list <==> y == x || y in kept
    requires 0 <= g <= |list| && Splits(e, list[..g], list[g..], e[last])
    ensures Merged(e, kept, Insert(list[..g], last, list[g..]), x, last)
  {
    HalvesInRange(list, g, last - 1);
    InsertKeepsOrder(e, list[..g], list[g..], last, last);
  }

  lemma KeptOfOrdered(e0: seq<real>, e: seq<real>, l: seq<int>, limit: nat, last: nat, h: int, n: int)
    requires 3 <= last <= limit && last < |e| && Ordered(e0, l, limit, last - 1)
    requires 0 <= h < n == ListLength(limit, last) - 1
    requires forall z :: 1 <= z < last && z != l[h] ==> e[z] == e0[z]
    ensures n <= |l| && InRange(Kept(l, h, n), last - 1)
    ensures Distinct(Kept(l, h, n)) && Descending(e, Kept(l, h, n)) && l[h] !in Kept(l, h, n)
  {
    KeptIsOrdered(e0, e, l, h, n, last - 1);
  }

  lemma EntryInRange(e: seq<real>, iord: array<int>, limit: nat, last: nat, q: nat)
    requires 0 <= ListLength(limit, last) < iord.Length
    requires Ordered(e, ListOf(iord, ListLength(limit, last)), limit, last)
    requires 1 <= q <= ListLength(limit, last)
    ensures 1 <= iord[q] <= last
  {
    assert iord[q] == ListOf(iord, ListLength(limit, last))[q - 1];
  }

  /** Takes the changed interval out of the first jbnd entries and puts it and interval last in. */
  method Rearrange(last: nat, maxerr: int, nrmax0: nat, jbnd: int, elist: array<real>, iord: array<int>,
                   ghost kept: seq<int>, ghost e: seq<real>)
    returns (nrmax: nat)
    requires 3 <= last < elist.Length && e == elist[..] && jbnd + 1 < iord.Length && 1 <= maxerr < last
    requires InRange(kept, last - 1) && Distinct(kept) && Descending(e, kept) && maxerr !in kept
    requires 1 <= nrmax0 && Hole(iord, nrmax0, jbnd, kept) && e[maxerr] >= e[last]
    modifies iord
    ensures 1 <= nrmax <= nrmax0 && Merged(e, kept, ListOf(iord, jbnd + 1), maxerr, last)
  {
    hide Merged, Descending, Distinct;
    nrmax := nrmax0;
    if nrmax0 > 1 {
      nrmax := MoveUp(elist, iord, nrmax0, elist[maxerr], jbnd, kept, last - 1);
    }
    InsertBoth(elist, iord, nrmax, jbnd, maxerr, last, kept, e);
  }

  /**
   * The part of rdqpsrt for last > 2: interval maxerr0, at position nrmax0 of the list, has a
   * new error, and interval last, with an error no larger than that, is new.
   */
  method Resort(limit: nat, last: nat, maxerr0: int, nrmax0: nat, elist: array<real>, iord: array<int>,
                 ghost e0: seq<real>)
    returns (maxerr: int, ermax: real, nrmax: nat)
    requires 3 <= last <= limit < iord.Length && limit < elist.Length
    requires Ordered(e0, ListOf(iord, ListLength(limit, last - 1)), limit, last - 1)
    requires 1 <= nrmax0 < ListLength(limit, last) && iord[nrmax0] == maxerr0 && 1 <= maxerr0 < last
    requires forall z :: 1 <= z < last && z != maxerr0 ==> elist[z] == e0[z]
    requires elist[maxerr0] >= elist[last]
    modifies iord
    ensures Ordered(elist[..], ListOf(iord, ListLength(limit, last)), limit, last)
    ensures 1 <= nrmax <= nrmax0 && maxerr == iord[nrmax] && 1 <= maxerr <= last && ermax == elist[maxerr]
  {
    hide Merged, Ordered, Descending, Distinct, InRange, Hole;
    ghost var l := ListOf(iord, ListLength(limit, last - 1));
    ghost var e := elist[..];
    var jupbn := if last > limit / 2 + 2 then limit + 3 - last else last;
    var jbnd := jupbn - 1;
    ghost var kept := Kept(l, nrmax0 - 1, jbnd);
    KeptOfOrdered(e0, e, l, limit, last, nrmax0 - 1, jbnd);
    OpenAt(iord, nrmax0, |l|, jbnd);
    nrmax := Rearrange(last, maxerr0, nrmax0, jbnd, elist, iord, kept, e);
    MergedIsOrdered(e0, e, l, ListOf(iord, jupbn), limit, last, nrmax0 - 1, jbnd);
    EntryInRange(e, iord, limit, last, nrmax);
    maxerr := iord[nrmax];
    ermax := elist[maxerr];
  }

  lemma FirstPair(e: seq<real>, iord: array<int>, limit: nat)
    requires 2 <= limit < iord.Length && limit < |e| && iord[1] == 1 && iord[2] == 2 && e[1] >= e[2]
    ensures Ordered(e, ListOf(iord, ListLength(limit, 2)), limit, 2)
  {
    var l := ListOf(iord, 2);
    assert l == [1, 2];
    forall x | 1 <= x <= 2 ensures x in l {
      assert l[x - 1] == x;
    }
  }

  /** rdqpsrt. Before the call with last intervals, the list was that of last - 1 intervals. */
  method Rdqpsrt(limit: nat, last: nat, maxerr0: int, nrmax0: nat, elist: array<real>, iord: array<int>,
                 ghost e0: seq<real>)
    returns (maxerr: int, ermax: real, nrmax: nat)
    requires 2 <= last <= limit < iord.Length && limit < elist.Length
    requires 1 <= nrmax0 < ListLength(limit, last) && 1 <= maxerr0 < last
    requires last > 2 ==>
      && Ordered(e0, ListOf(iord, ListLength(limit, last - 1)), limit, last - 1)
      && iord[nrmax0] == maxerr0
    requires forall z :: 1 <= z < last && z != maxerr0 && z < |e0| ==> elist[z] == e0[z]
    requires elist[maxerr0] >= elist[last]
    modifies iord
    ensures Ordered(elist[..], ListOf(iord, ListLength(limit, last)), limit, last)
    ensures 1 <= nrmax <= nrmax0 && maxerr == iord[nrmax] && 1 <= maxerr <= last && ermax == elist[maxerr]
  {
    if last <= 2 {
      iord[1] := 1;
      iord[2] := 2;
      FirstPair(elist[..], iord, limit);
      nrmax := nrmax0;
      maxerr := iord[nrmax];
      ermax := elist[maxerr];
    } else {
      maxerr, ermax, nrmax := Resort(limit, last, maxerr0, nrmax0, elist, iord, e0);
    }
  }
}
