/** freev: the free variables, and which have entered and left since the previous call. */
module FreeVariables {
  import opened Vectors

  predicate IsVariable(k: int, n: nat) {
    1 <= k <= n
  }

  ghost function All(n: nat): set<int> {
    set k | 1 <= k <= n && IsVariable(k, n)
  }

  /** The variables that the path search has left free. */
  ghost function FreeIn(w: seq<int>, n: nat): set<int>
    requires n < |w|
  {
    set k | 1 <= k <= n && w[k] <= 0
  }

  /** indx lists the set f in its first nfree places and the other variables after them. */
  ghost predicate Splits(indx: seq<int>, nfree: int, n: nat, f: set<int>) {
    && |indx| == n + 1 && 0 <= nfree <= n
    && Components(indx[1..], n) && Distinct(indx[1..])
    && f == Elements(indx[1..nfree + 1])
    && All(n) - f == Elements(indx[nfree + 1..])
  }

  /** l has no repetitions and its entries are those of s. */
  ghost predicate Lists(l: seq<int>, s: set<int>) {
    Distinct(l) && Elements(l) == s
  }

  lemma FreeStart(w: seq<int>)
    requires |w| > 0
    ensures Lists([], FreeIn(w, 0)) && Lists([], All(0) - FreeIn(w, 0))
  {
    assert Elements([]) == FreeIn(w, 0);
  }

  lemma FreeInAll(w: seq<int>, n: nat)
    requires n < |w|
    ensures FreeIn(w, n) <= All(n)
  {
  }

  lemma FreeStep(w: seq<int>, i: nat)
    requires 1 <= i < |w|
    ensures i !in FreeIn(w, i - 1) && i !in All(i - 1) - FreeIn(w, i - 1)
    ensures FreeIn(w, i) == if w[i] <= 0 then FreeIn(w, i - 1) + {i} else FreeIn(w, i - 1)
    ensures All(i) - FreeIn(w, i) ==
            if w[i] <= 0 then All(i - 1) - FreeIn(w, i - 1) else All(i - 1) - FreeIn(w, i - 1) + {i}
  {
    if w[i] <= 0 {
      assert FreeIn(w, i) == FreeIn(w, i - 1) + {i};
    } else {
      assert FreeIn(w, i) == FreeIn(w, i - 1);
    }
  }

  lemma ListsAppend(l: seq<int>, s: set<int>, k: int)
    requires Lists(l, s) && k !in s
    ensures Lists(l + [k], s + {k}) && Lists([k] + l, s + {k})
  {
    assert Elements(l + [k]) == s + {k};
    assert Elements([k] + l) == s + {k};
  }

  /** Those of the first i entries of l that satisfy the test. */
  ghost function Chosen(l: seq<int>, w: seq<int>, i: nat, free: bool): set<int>
    requires i <= |l| && forall k :: 0 <= k < |l| ==> 0 <= l[k] < |w|
  {
    set k | 0 <= k < i && (w[l[k]] <= 0) == free :: l[k]
  }

  lemma ChosenNone(l: seq<int>, w: seq<int>, free: bool)
    requires forall k :: 0 <= k < |l| ==> 0 <= l[k] < |w|
    ensures Lists([], Chosen(l, w, 0, free))
  {
    assert Elements([]) == Chosen(l, w, 0, free);
  }

  lemma ChosenStep(l: seq<int>, w: seq<int>, i: nat, free: bool)
    requires i < |l| && Distinct(l) && forall k :: 0 <= k < |l| ==> 0 <= l[k] < |w|
    ensures Chosen(l, w, i + 1, free) ==
            if (w[l[i]] <= 0) == free then Chosen(l, w, i, free) + {l[i]} else Chosen(l, w, i, free)
    ensures l[i] !in Chosen(l, w, i, free)
  {
    if (w[l[i]] <= 0) == free {
      assert Chosen(l, w, i + 1, free) == Chosen(l, w, i, free) + {l[i]};
    } else {
      assert Chosen(l, w, i + 1, free) == Chosen(l, w, i, free);
    }
  }

  /** Extends a[1..next] by k; what is stored from keep on stays. */
  method Append(a: array<int>, next: int, k: int, ghost keep: int)
    requires 1 <= next < keep <= a.Length
    modifies a
    ensures a[1..next + 1] == old(a[1..next]) + [k] && a[keep..] == old(a[keep..])
  {
    a[next] := k;
  }

  /** Extends a[first..] downwards by k; what is stored in a[1..keep] stays. */
  method Prepend(a: array<int>, first: int, k: int, ghost keep: int)
    requires 1 <= keep < first <= a.Length
    modifies a
    ensures a[first - 1..] == [k] + old(a[first..]) && a[1..keep] == old(a[1..keep])
  {
    a[first - 1] := k;
  }

  class FreeSet {
    const n: nat
    const indx: array<int>
    const indx2: array<int>
    var nfree: int
    var nenter: int
    var ileave: int
    var wrk: bool

    ghost predicate Shapes() {
      indx.Length == indx2.Length == n + 1 && indx != indx2
    }

    constructor (n: nat)
      ensures Shapes() && this.n == n && fresh(indx) && fresh(indx2) && nfree == n
    {
      this.n := n;
      indx := new int[n + 1];
      indx2 := new int[n + 1];
      nfree := n;
      nenter := 0;
      ileave := n + 1;
      wrk := false;
    }

    ghost predicate Tracks(f: set<int>)
      reads `nfree, indx
    {
      Shapes() && Splits(indx[..], nfree, n, f)
    }

    /** indx2 lists the variables in enter at its start and those in leave at its end. */
    ghost predicate Changed(enter: set<int>, leave: set<int>)
      reads `nenter, `ileave, indx2
    {
      && Shapes() && 0 <= nenter < ileave <= n + 1
      && Lists(indx2[1..nenter + 1], enter) && Lists(indx2[ileave..], leave)
    }

    /** The previously free variables that are now at a bound. */
    method FindLeaving(iwhere: array<int>)
      requires Shapes() && iwhere.Length == n + 1 && iwhere != indx2 && iwhere != indx
      requires 0 <= nfree <= n && Components(indx[1..], n) && Distinct(indx[1..])
      requires ileave == n + 1
      modifies `ileave, indx2
      ensures nfree - (n + 1 - ileave) >= 0 && ileave <= n + 1
      ensures Lists(indx2[ileave..], Chosen(indx[1..nfree + 1], iwhere[..], nfree, false))
    {
      hide Lists, Chosen;
      ghost var l, w := indx[1..nfree + 1], iwhere[..];
      ChosenNone(l, w, false);
      assert indx2[ileave..] == [];
      var i := 1;
      while i <= nfree
        invariant 1 <= i <= nfree + 1 && 0 <= n + 1 - ileave <= i - 1
        invariant Lists(indx2[ileave..], Chosen(l, w, i - 1, false))
      {
        var k := indx[i];
        ChosenStep(l, w, i - 1, false);
        if iwhere[k] > 0 {
          ListsAppend(indx2[ileave..], Chosen(l, w, i - 1, false), k);
          ileave := ileave - 1;
          Prepend(indx2, ileave + 1, k, 1);
        }
        i := i + 1;
      }
    }

    /** The previously bound variables that are now free. */
    method FindEntering(iwhere: array<int>)
      requires Shapes() && iwhere.Length == n + 1 && iwhere != indx2 && iwhere != indx
      requires 0 <= nfree <= n && Components(indx[1..], n) && Distinct(indx[1..])
      requires nenter == 0 && nfree - (n + 1 - ileave) >= 0 && ileave <= n + 1
      modifies `nenter, indx2
      ensures 0 <= nenter < ileave && indx2[ileave..] == old(indx2[ileave..])
      ensures Lists(indx2[1..nenter + 1], Chosen(indx[nfree + 1..], iwhere[..], n - nfree, true))
    {
      hide Lists, Chosen;
      ghost var l, w, rest := indx[nfree + 1..], iwhere[..], indx2[ileave..];
      ChosenNone(l, w, true);
      assert indx2[1..nenter + 1] == [];
      var i := nfree + 1;
      while i <= n
        invariant nfree + 1 <= i <= n + 1 && 0 <= nenter <= i - nfree - 1
        invariant indx2[ileave..] == rest
        invariant Lists(indx2[1..nenter + 1], Chosen(l, w, i - nfree - 1, true))
      {
        var k := indx[i];
        ChosenStep(l, w, i - nfree - 1, true);
        if iwhere[k] <= 0 {
          ListsAppend(indx2[1..nenter + 1], Chosen(l, w, i - nfree - 1, true), k);
          nenter := nenter + 1;
          Append(indx2, nenter, k, ileave);
        }
        i := i + 1;
      }
    }

    /** Lists the free variables in ascending order from the left, the others from the right. */
    method Relist(iwhere: array<int>)
      requires Shapes() && iwhere.Length == n + 1 && iwhere != indx
      modifies `nfree, indx
      ensures Tracks(FreeIn(iwhere[..], n))
    {
      hide Lists, FreeIn, All;
      ghost var w := iwhere[..];
      FreeStart(w);
      nfree := 0;
      var iact := n + 1;
      assert indx[1..nfree + 1] == [] && indx[iact..] == [];
      var i := 1;
      while i <= n
        invariant 1 <= i <= n + 1 && 0 <= nfree && iact <= n + 1 && nfree + (n + 1 - iact) == i - 1
        invariant Lists(indx[1..nfree + 1], FreeIn(w, i - 1))
        invariant Lists(indx[iact..], All(i - 1) - FreeIn(w, i - 1))
      {
        FreeStep(w, i);
        if iwhere[i] <= 0 {
          ListsAppend(indx[1..nfree + 1], FreeIn(w, i - 1), i);
          nfree := nfree + 1;
          Append(indx, nfree, i, iact);
        } else {
          ListsAppend(indx[iact..], All(i - 1) - FreeIn(w, i - 1), i);
          iact := iact - 1;
          Prepend(indx, iact + 1, i, nfree + 1);
        }
        i := i + 1;
      }
      FreeInAll(w, n);
      JoinLists(indx[..], nfree, n, FreeIn(w, n));
    }

    /** Lists the variables that have entered or left the set f. */
    method ListChanges(iwhere: array<int>, ghost f: set<int>)
      requires iwhere.Length == n + 1 && iwhere != indx2 && iwhere != indx && Tracks(f)
      requires nenter == 0 && ileave == n + 1
      modifies `nenter, `ileave, indx2
      ensures Changed(FreeIn(iwhere[..], n) - f, f - FreeIn(iwhere[..], n))
    {
      hide Lists, Chosen, FreeIn, Splits;
      SplitsIsList(indx[..], nfree, n, f);
      ChangesAreDifferences(indx[..], iwhere[..], nfree, n, f);
      FindLeaving(iwhere);
      FindEntering(iwhere);
    }

    /** freev. Changes are counted from the second iteration on, and only if there are bounds. */
    method Freev(iwhere: array<int>, iter: nat, cnstnd: bool, updatd: bool, ghost f: set<int>)
      requires Shapes() && iwhere.Length == n + 1 && iwhere != indx2 && iwhere != indx
      requires iter > 0 && cnstnd ==> Tracks(f)
      modifies `nfree, `nenter, `ileave, `wrk, indx, indx2
      ensures Tracks(FreeIn(iwhere[..], n))
      ensures iter > 0 && cnstnd ==> Changed(FreeIn(iwhere[..], n) - f, f - FreeIn(iwhere[..], n))
      ensures !(iter > 0 && cnstnd) ==> Changed({}, {})
      ensures wrk <==> updatd || (iter > 0 && cnstnd && FreeIn(iwhere[..], n) != f)
    {
      hide Lists, FreeIn, Tracks, Splits;
      ghost var now := FreeIn(iwhere[..], n);
      ghost var enter, leave := {}, {};
      NoChanges();
      nenter := 0;
      ileave := n + 1;
      assert indx2[1..1] == [] == indx2[n + 1..];
      if iter > 0 && cnstnd {
        enter, leave := now - f, f - now;
        ListChanges(iwhere, f);
      }
      CountIsSize(indx2[ileave..], leave);
      CountIsSize(indx2[1..nenter + 1], enter);
      SameIfNoDifference(now, f);
      wrk := ileave < n + 1 || nenter > 0 || updatd;
      Relist(iwhere);
    }
  }

  lemma JoinLists(indx: seq<int>, nfree: int, n: nat, f: set<int>)
    requires |indx| == n + 1 && 0 <= nfree <= n && f <= All(n)
    requires Lists(indx[1..nfree + 1], f) && Lists(indx[nfree + 1..], All(n) - f)
    ensures Splits(indx, nfree, n, f)
  {
    var a, b, l := indx[1..nfree + 1], indx[nfree + 1..], indx[1..];
    assert l == a + b;
    forall i | 0 <= i < |l| ensures 1 <= l[i] <= n {
      assert l[i] in All(n) by {
        if i < nfree { assert a[i] in Elements(a); } else { assert b[i - nfree] in Elements(b); }
      }
    }
    forall i, j | 0 <= i < j < |l| ensures l[i] != l[j] {
      if i < nfree <= j {
        assert a[i] in Elements(a) && b[j - nfree] in Elements(b);
      } else if j < nfree {
        assert a[i] != a[j];
      } else {
        assert b[i - nfree] != b[j - nfree];
      }
    }
  }

  lemma ChangesAreDifferences(l: seq<int>, w: seq<int>, nfree: int, n: nat, f: set<int>)
    requires Splits(l, nfree, n, f) && |w| == n + 1
    ensures Chosen(l[1..nfree + 1], w, nfree, false) == f - FreeIn(w, n)
    ensures Chosen(l[nfree + 1..], w, n - nfree, true) == FreeIn(w, n) - f
  {
    var a, b := l[1..nfree + 1], l[nfree + 1..];
    assert l[1..] == a + b;
    forall k | k in f - FreeIn(w, n) ensures k in Chosen(a, w, nfree, false) {
      var i :| 0 <= i < |a| && a[i] == k;
    }
    forall k | k in FreeIn(w, n) - f ensures k in Chosen(b, w, n - nfree, true) {
      assert k in All(n) - f;
      var i :| 0 <= i < |b| && b[i] == k;
    }
  }

  lemma CountIsSize(l: seq<int>, s: set<int>)
    requires Lists(l, s)
    ensures s == {} <==> |l| == 0
  {
    if |l| > 0 {
      assert l[0] in Elements(l);
    }
  }

  lemma NoChanges()
    ensures Lists([], {})
  {
    assert Elements([]) == {};
  }

  lemma SplitsIsList(indx: seq<int>, nfree: int, n: nat, f: set<int>)
    requires Splits(indx, nfree, n, f)
    ensures |indx| == n + 1 && 0 <= nfree <= n && Components(indx[1..], n) && Distinct(indx[1..])
  {
  }

  lemma SameIfNoDifference(s: set<int>, t: set<int>)
    ensures s == t <==> s - t == {} && t - s == {}
  {
    if s - t == {} && t - s == {} {
      assert forall x :: x in s ==> x !in s - t;
      assert forall x :: x in t ==> x !in t - s;
    }
  }
}
