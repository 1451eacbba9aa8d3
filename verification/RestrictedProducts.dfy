/** The incremental part of formk: inner products of the pairs restricted to the free or to the bound variables. */
module RestrictedProducts {
  import opened Vectors
  import opened Blas
  import opened CorrectionMemory
  import opened FreeVariables

  /** Row or column number r of wn1 belongs to y for r <= m and to s beyond m. */
  function Part(ps: seq<Pair>, m: nat, r: int): Vector
    requires 1 <= r <= |ps| <= m || (|ps| <= m < r <= m + |ps|)
  {
    if r <= m then ps[r - 1].y else ps[r - m - 1].s
  }

  /** The lower triangular parts of the first k rows of the blocks (1,1) and (2,2), and k rows and columns of (2,1). */
  predicate InBlocks(k: int, m: nat, r: int, c: int) {
    || 1 <= c <= r <= k
    || m < c <= r <= m + k
    || (m < r <= m + k && 1 <= c <= k)
  }

  /** Block (1,1) and the upper triangle of block (2,1) range over the free variables, the rest over the bound ones. */
  predicate OnFree(m: nat, r: int, c: int) {
    c <= m && (r <= m || r - m <= c)
  }

  /** The pair that a row or column belongs to, counted from 1. */
  function Number(m: nat, r: int): int {
    if r <= m then r else r - m
  }

  /** Both pairs of an entry come after the first k. */
  predicate Beyond(k: int, m: nat, r: int, c: int) {
    Number(m, r) > k && Number(m, c) > k
  }

  /** The entry of wn1 for the free set f, computed from scratch. */
  ghost function Entry(ps: seq<Pair>, m: nat, n: nat, f: set<int>, r: int, c: int): real
    requires |ps| <= m && Sized(ps, n) && InBlocks(|ps|, m, r, c)
  {
    DotIn(Part(ps, m, r), Part(ps, m, c), if OnFree(m, r, c) then f else All(n) - f)
  }

  /** wn1 holds what computing from scratch would give. */
  ghost predicate Caches(wn1: array2<real>, ps: seq<Pair>, m: nat, n: nat, f: set<int>)
    reads wn1
  {
    && wn1.Length0 == wn1.Length1 == 2 * m + 1 && |ps| <= m && Sized(ps, n)
    && forall r, c {:trigger wn1[r, c]} :: InBlocks(|ps|, m, r, c) ==> wn1[r, c] == Entry(ps, m, n, f, r, c)
  }

  /** The same for the entries of pairs behind the first k. */
  ghost predicate CachesBeyond(wn1: array2<real>, ps: seq<Pair>, m: nat, n: nat, f: set<int>, k: nat)
    reads wn1
  {
    && wn1.Length0 == wn1.Length1 == 2 * m + 1 && |ps| <= m && Sized(ps, n)
    && forall r, c {:trigger wn1[r, c]} :: InBlocks(|ps|, m, r, c) && Beyond(k, m, r, c) ==>
      wn1[r, c] == Entry(ps, m, n, f, r, c)
  }

  lemma BeyondNone(wn1: array2<real>, ps: seq<Pair>, m: nat, n: nat, f: set<int>)
    ensures Caches(wn1, ps, m, n, f) <==> CachesBeyond(wn1, ps, m, n, f, 0)
  {
    hide Entry;
    if CachesBeyond(wn1, ps, m, n, f, 0) {
      forall r, c | InBlocks(|ps|, m, r, c) ensures wn1[r, c] == Entry(ps, m, n, f, r, c) {
        assert Beyond(0, m, r, c);
      }
    }
  }

  /** The correction of an entry when the variables in enter become free and those in leave cease to be. */
  ghost function Delta(ps: seq<Pair>, m: nat, n: nat, enter: set<int>, leave: set<int>, r: int, c: int): real
    requires |ps| <= m && Sized(ps, n) && InBlocks(|ps|, m, r, c)
  {
    var u, v := Part(ps, m, r), Part(ps, m, c);
    if OnFree(m, r, c) then DotIn(u, v, enter) - DotIn(u, v, leave) else DotIn(u, v, leave) - DotIn(u, v, enter)
  }

  /** The correction is exact. */
  lemma DeltaIsExact(ps: seq<Pair>, m: nat, n: nat, f: set<int>, enter: set<int>, leave: set<int>, r: int, c: int)
    requires |ps| <= m && Sized(ps, n) && InBlocks(|ps|, m, r, c)
    requires f <= All(n) && enter <= All(n) - f && leave <= f
    ensures Entry(ps, m, n, f - leave + enter, r, c) ==
            Entry(ps, m, n, f, r, c) + Delta(ps, m, n, enter, leave, r, c)
  {
    hide DotIn;
    var u, v := Part(ps, m, r), Part(ps, m, c);
    if OnFree(m, r, c) {
      DotInChange(u, v, f, enter, leave);
    } else {
      DotInChange(u, v, All(n) - f, leave, enter);
      assert All(n) - (f - leave + enter) == All(n) - f - enter + leave;
    }
  }

  // ----- sums over lists of variables -----

  /** The loop over ind[lo], ..., ind[hi - 1] that adds up the products of two columns. */
  method SumOver(a: array2<real>, p: nat, b: array2<real>, q: nat, ind: array<int>, lo: nat, hi: nat, ghost n: nat)
    returns (s: real)
    requires a.Length0 == b.Length0 == n + 1 && p < a.Length1 && q < b.Length1
    requires lo <= hi <= ind.Length && Components(ind[lo..hi], n)
    ensures s == DotOver(Column(a, p), Column(b, q), ind[lo..hi])
  {
    s := 0.0;
    ghost var l := ind[lo..hi];
    var k := lo;
    while k < hi
      invariant lo <= k <= hi && s == DotOver(Column(a, p), Column(b, q), l[..k - lo])
    {
      var k1 := ind[k];
      assert l[k - lo] == k1;
      assert l[..k + 1 - lo] == l[..k - lo] + [k1];
      s := s + a[k1, p] * b[k1, q];
      k := k + 1;
    }
    assert l[..hi - lo] == l;
  }

  /** The lists of the free and bound variables, and of those that have changed. */
  ghost predicate ListedAt(ind: array<int>, lo: nat, hi: nat, n: nat, s: set<int>)
    reads ind
  {
    lo <= hi <= ind.Length && Components(ind[lo..hi], n) && Lists(ind[lo..hi], s)
  }

  method SumInSet(a: array2<real>, p: nat, b: array2<real>, q: nat, ind: array<int>, lo: nat, hi: nat, ghost n: nat,
                  ghost f: set<int>, ghost u: Vector, ghost v: Vector)
    returns (s: real)
    requires a.Length0 == b.Length0 == n + 1 && p < a.Length1 && q < b.Length1
    requires ListedAt(ind, lo, hi, n, f) && Column(a, p) == u && Column(b, q) == v
    ensures s == DotIn(u, v, f)
  {
    s := SumOver(a, p, b, q, ind, lo, hi, n);
    DotOverIsDotIn(u, v, ind[lo..hi]);
  }

  /** The pairs ps are those of before, extended by a new one (added) and without the oldest (dropped). */
  ghost predicate Follows(before: seq<Pair>, ps: seq<Pair>, added: bool, dropped: bool) {
    if !added then ps == before
    else if dropped then before != [] && |ps| == |before| && ps[..|ps| - 1] == before[1..]
    else |ps| == |before| + 1 && ps[..|ps| - 1] == before
  }

  /** The first up pairs are those that came shift places later. */
  ghost predicate KeptShifted(before: seq<Pair>, ps: seq<Pair>, shift: int, up: int) {
    && 0 <= shift <= 1 && 0 <= up <= |ps| && up + shift <= |before|
    && forall i :: 0 <= i < up ==> ps[i] == before[i + shift]
  }

  lemma FollowsShifted(before: seq<Pair>, ps: seq<Pair>, added: bool, dropped: bool)
    requires Follows(before, ps, added, dropped) && (dropped ==> added)
    ensures var shift, up := if dropped then 1 else 0, if added then |ps| - 1 else |ps|;
      up + shift == |before| && KeptShifted(before, ps, shift, up)
  {
    if added {
      var kept := ps[..|ps| - 1];
      forall i | 0 <= i < |kept| ensures ps[i] == before[i + if dropped then 1 else 0] {
        assert ps[i] == kept[i];
      }
    }
  }

  /** An entry of pairs that are kept, before and after the change of the free variables. */
  lemma KeptEntry(before: seq<Pair>, ps: seq<Pair>, m: nat, n: nat, f0: set<int>, f: set<int>, shift: int, up: int,
                  r: int, c: int)
    requires |ps| <= m && |before| <= m && Sized(ps, n) && Sized(before, n) && f <= All(n) && f0 <= All(n)
    requires KeptShifted(before, ps, shift, up) && InBlocks(up, m, r, c)
    ensures InBlocks(|ps|, m, r, c) && InBlocks(|before|, m, r + shift, c + shift)
    ensures Entry(ps, m, n, f, r, c) ==
            Entry(before, m, n, f0, r + shift, c + shift) + Delta(ps, m, n, f - f0, f0 - f, r, c)
  {
    hide DotIn;
    DeltaIsExact(ps, m, n, f0, f - f0, f0 - f, r, c);
    assert f0 - (f0 - f) + (f - f0) == f;
  }

  /** The pairs behind the first j are zero in all components of f. */
  ghost predicate VanishOn(ps: seq<Pair>, n: nat, f: set<int>, j: nat)
    requires Sized(ps, n)
  {
    forall q, k :: j <= q < |ps| && 1 <= k <= n && k in f ==> ps[q].s[k - 1] == 0.0 && ps[q].y[k - 1] == 0.0
  }

  lemma EntryWithoutFree(ps: seq<Pair>, m: nat, n: nat, f0: set<int>, r: int, c: int)
    requires |ps| <= m && Sized(ps, n) && f0 <= All(n) && InBlocks(|ps|, m, r, c)
    ensures Entry(ps, m, n, f0, r, c) == Entry(ps, m, n, {}, r, c) <==> DotIn(Part(ps, m, r), Part(ps, m, c), f0) == 0.0
  {
    hide DotIn;
    DeltaIsExact(ps, m, n, f0, {}, f0, r, c);
    assert f0 - f0 + {} == {};
    DotInNothing(Part(ps, m, r), Part(ps, m, c));
  }

  lemma DotInNothing(u: Vector, v: Vector)
    requires |u| == |v|
    ensures DotIn(u, v, {}) == 0.0
  {
    DotInEmpty(u, v, {}, |u|);
  }

  // ----- when the call is left out -----

  /** The products of the same pairs over f0 are those over no variable exactly if these pairs vanish on f0. */
  lemma SamePairsWithoutFree(ps: seq<Pair>, m: nat, n: nat, f0: set<int>, j: nat)
    requires |ps| <= m && Sized(ps, n) && f0 <= All(n)
    ensures (forall r, c :: InBlocks(|ps|, m, r, c) && Beyond(j, m, r, c) ==>
              Entry(ps, m, n, f0, r, c) == Entry(ps, m, n, {}, r, c)) <==>
            VanishOn(ps, n, f0, j)
  {
    hide Entry, DotIn;
    if VanishOn(ps, n, f0, j) {
      forall r, c | InBlocks(|ps|, m, r, c) && Beyond(j, m, r, c)
        ensures Entry(ps, m, n, f0, r, c) == Entry(ps, m, n, {}, r, c)
      {
        PartVanishes(ps, m, n, f0, j, r, c);
        EntryWithoutFree(ps, m, n, f0, r, c);
      }
    }
    if forall r, c :: InBlocks(|ps|, m, r, c) && Beyond(j, m, r, c) ==>
        Entry(ps, m, n, f0, r, c) == Entry(ps, m, n, {}, r, c)
    {
      forall q, k | j <= q < |ps| && 1 <= k <= n && k in f0
        ensures ps[q].s[k - 1] == 0.0 && ps[q].y[k - 1] == 0.0
      {
        assert Beyond(j, m, q + 1, q + 1) && Beyond(j, m, m + q + 1, m + q + 1);
        DiagonalVanishes(ps, m, n, f0, q + 1, k);
        DiagonalVanishes(ps, m, n, f0, m + q + 1, k);
      }
    }
  }

  lemma PartVanishes(ps: seq<Pair>, m: nat, n: nat, f0: set<int>, j: nat, r: int, c: int)
    requires |ps| <= m && Sized(ps, n) && VanishOn(ps, n, f0, j) && InBlocks(|ps|, m, r, c) && Beyond(j, m, r, c)
    ensures DotIn(Part(ps, m, r), Part(ps, m, c), f0) == 0.0
  {
    DotInVanishes(Part(ps, m, r), Part(ps, m, c), f0, n);
  }

  lemma DiagonalVanishes(ps: seq<Pair>, m: nat, n: nat, f0: set<int>, r: int, k: int)
    requires |ps| <= m && Sized(ps, n) && f0 <= All(n) && InBlocks(|ps|, m, r, r)
    requires Entry(ps, m, n, f0, r, r) == Entry(ps, m, n, {}, r, r) && 1 <= k <= n && k in f0
    ensures Part(ps, m, r)[k - 1] == 0.0
  {
    EntryWithoutFree(ps, m, n, f0, r, r);
    SquaresVanish(Part(ps, m, r), f0, n);
  }

  lemma {:induction false} DotInAllTo(u: Vector, v: Vector, s: set<int>, k: nat)
    requires k <= |u| == |v| && forall i :: 1 <= i <= k ==> i in s
    ensures DotInTo(u, v, s, k) == DotTo(u, v, k)
  {
    if k > 0 {
      DotInAllTo(u, v, s, k - 1);
    }
  }

  /** The entry without free variables: nothing, or the whole product. */
  lemma EntryOfNone(ps: seq<Pair>, m: nat, n: nat, r: int, c: int)
    requires |ps| <= m && Sized(ps, n) && InBlocks(|ps|, m, r, c)
    ensures Entry(ps, m, n, {}, r, c) == if OnFree(m, r, c) then 0.0 else Dot(Part(ps, m, r), Part(ps, m, c))
  {
    var u, v := Part(ps, m, r), Part(ps, m, c);
    DotInNothing(u, v);
    DotInAllTo(u, v, All(n), n);
    assert All(n) - {} == All(n);
  }

  /**
   * The places of the newest pair, which a skipped call does not fill, happen to hold its products with the pairs
   * behind the first j: nothing where they range over the free variables, the whole product elsewhere.
   */
  ghost predicate NewPlacesFit(wn1: array2<real>, ps: seq<Pair>, m: nat, n: nat, j: nat)
    requires |ps| <= m && wn1.Length0 == wn1.Length1 == 2 * m + 1 && Sized(ps, n)
    reads wn1
  {
    forall r, c {:trigger wn1[r, c]} ::
      InBlocks(|ps|, m, r, c) && !InBlocks(|ps| - 1, m, r, c) && Beyond(j, m, r, c) ==>
        wn1[r, c] == if OnFree(m, r, c) then 0.0 else Dot(Part(ps, m, r), Part(ps, m, c))
  }

  ghost predicate YVanishesOn(ps: seq<Pair>, n: nat, f: set<int>, j: nat)
    requires Sized(ps, n)
  {
    forall q, k :: j <= q < |ps| && 1 <= k <= n && k in f ==> ps[q].y[k - 1] == 0.0
  }

  /**
   * The products of the old pairs behind the first k, which a skipped call does not move up, happen to be those of
   * the new ones.
   */
  ghost predicate OldPlacesFit(before: seq<Pair>, ps: seq<Pair>, n: nat, f0: set<int>, k: nat)
    requires |before| == |ps| && Sized(before, n) && Sized(ps, n)
  {
    && YVanishesOn(before, n, f0, k)
    && (forall i, j :: k <= j <= i < |ps| ==>
      DotIn(before[i].s, before[j].s, All(n) - f0) == Dot(ps[i].s, ps[j].s))
    && (forall i, j :: k <= j < i < |ps| ==>
      DotIn(before[i].s, before[j].y, All(n) - f0) == Dot(ps[i].s, ps[j].y))
  }

  /**
   * What has to hold for a call to be left out without harm to the entries of pairs behind the first k, when no
   * variable is free any more.
   */
  ghost predicate SkipHarmless(wn1: array2<real>, before: seq<Pair>, ps: seq<Pair>, m: nat, n: nat, f0: set<int>,
                               added: bool, dropped: bool, k: nat)
    requires |ps| <= m && wn1.Length0 == wn1.Length1 == 2 * m + 1 && Sized(before, n) && Sized(ps, n)
    requires Follows(before, ps, added, dropped) && (dropped ==> added)
    reads wn1
  {
    if dropped then OldPlacesFit(before, ps, n, f0, k)
    else VanishOn(before, n, f0, k) && (added ==> NewPlacesFit(wn1, ps, m, n, k))
  }

  /**
   * The driver does not call formk when no variable is free, even if variables have left the free set
   * f0 or a pair has been added. Where a matrix was right for the previous pairs and f0, that is behind the
   * first k pairs, it is then right for the present pairs and no free variable exactly under the condition above.
   */
  lemma SkipExactly(wn1: array2<real>, before: seq<Pair>, ps: seq<Pair>, m: nat, n: nat, f0: set<int>,
                    added: bool, dropped: bool, k: nat)
    requires CachesBeyond(wn1, before, m, n, f0, k) && f0 <= All(n) && |ps| <= m && Sized(ps, n)
    requires Follows(before, ps, added, dropped) && (dropped ==> added)
    ensures CachesBeyond(wn1, ps, m, n, {}, k) <==> SkipHarmless(wn1, before, ps, m, n, f0, added, dropped, k)
    ensures k == 0 ==> (Caches(wn1, ps, m, n, {}) <==> SkipHarmless(wn1, before, ps, m, n, f0, added, dropped, 0))
  {
    hide Entry, DotIn, Dot, VanishOn, NewPlacesFit, OldPlacesFit;
    BeyondNone(wn1, ps, m, n, {});
    if dropped {
      SkipWithDrop(wn1, before, ps, m, n, f0, k);
    } else if added {
      SkipWithNew(wn1, before, ps, m, n, f0, k);
    } else {
      SkipWithSame(wn1, ps, m, n, f0, k);
    }
  }

  lemma SkipWithSame(wn1: array2<real>, ps: seq<Pair>, m: nat, n: nat, f0: set<int>, k: nat)
    requires CachesBeyond(wn1, ps, m, n, f0, k) && f0 <= All(n)
    ensures CachesBeyond(wn1, ps, m, n, {}, k) <==> VanishOn(ps, n, f0, k)
  {
    hide Entry, DotIn, VanishOn, Beyond;
    SamePairsWithoutFree(ps, m, n, f0, k);
    if CachesBeyond(wn1, ps, m, n, {}, k) {
      forall r, c | InBlocks(|ps|, m, r, c) && Beyond(k, m, r, c)
        ensures Entry(ps, m, n, f0, r, c) == Entry(ps, m, n, {}, r, c)
      {
        assert wn1[r, c] == Entry(ps, m, n, f0, r, c);
      }
    }
  }

  /** A new pair, and room for it. */
  lemma SkipWithNew(wn1: array2<real>, before: seq<Pair>, ps: seq<Pair>, m: nat, n: nat, f0: set<int>, k: nat)
    requires CachesBeyond(wn1, before, m, n, f0, k) && f0 <= All(n) && |ps| <= m && Sized(ps, n)
    requires Follows(before, ps, true, false)
    ensures CachesBeyond(wn1, ps, m, n, {}, k) <==> VanishOn(before, n, f0, k) && NewPlacesFit(wn1, ps, m, n, k)
  {
    hide DotIn, Dot, VanishOn, Beyond;
    var col := |ps|;
    FollowsShifted(before, ps, true, false);
    SamePairsWithoutFree(before, m, n, f0, k);
    forall r, c | InBlocks(|before|, m, r, c)
      ensures InBlocks(col, m, r, c) && Entry(ps, m, n, {}, r, c) == Entry(before, m, n, {}, r, c)
    {
    }
    forall r, c | InBlocks(col, m, r, c)
      ensures Entry(ps, m, n, {}, r, c) == if OnFree(m, r, c) then 0.0 else Dot(Part(ps, m, r), Part(ps, m, c))
    {
      EntryOfNone(ps, m, n, r, c);
    }
    hide Entry;
    if CachesBeyond(wn1, ps, m, n, {}, k) {
      forall r, c | InBlocks(|before|, m, r, c) && Beyond(k, m, r, c)
        ensures Entry(before, m, n, f0, r, c) == Entry(before, m, n, {}, r, c)
      {
        assert wn1[r, c] == Entry(before, m, n, f0, r, c);
      }
    }
  }

  /** A new pair in the place of the oldest: the entries are not moved up. */
  lemma SkipWithDrop(wn1: array2<real>, before: seq<Pair>, ps: seq<Pair>, m: nat, n: nat, f0: set<int>, k: nat)
    requires CachesBeyond(wn1, before, m, n, f0, k) && f0 <= All(n) && |ps| <= m && Sized(ps, n)
    requires |before| == |ps|
    ensures CachesBeyond(wn1, ps, m, n, {}, k) <==> OldPlacesFit(before, ps, n, f0, k)
  {
    hide Dot, DotIn, Entry, Beyond, Sized;
    if OldPlacesFit(before, ps, n, f0, k) {
      forall r, c | InBlocks(|ps|, m, r, c) && Beyond(k, m, r, c) ensures wn1[r, c] == Entry(ps, m, n, {}, r, c) {
        OldPlaceFits(before, ps, m, n, f0, k, r, c);
      }
    }
    if CachesBeyond(wn1, ps, m, n, {}, k) {
      forall r, c | InBlocks(|ps|, m, r, c) && Beyond(k, m, r, c)
        ensures Entry(before, m, n, f0, r, c) == Entry(ps, m, n, {}, r, c)
      {
        assert wn1[r, c] == Entry(before, m, n, f0, r, c);
      }
      SameEntriesFit(before, ps, m, n, f0, k);
    }
  }

  lemma OldPlaceFits(before: seq<Pair>, ps: seq<Pair>, m: nat, n: nat, f0: set<int>, k: nat, r: int, c: int)
    requires |before| == |ps| <= m && Sized(before, n) && Sized(ps, n) && f0 <= All(n)
    requires OldPlacesFit(before, ps, n, f0, k) && InBlocks(|ps|, m, r, c) && Beyond(k, m, r, c)
    ensures Entry(before, m, n, f0, r, c) == Entry(ps, m, n, {}, r, c)
  {
    hide Dot, DotIn;
    EntryOfNone(ps, m, n, r, c);
    if OnFree(m, r, c) {
      DotInVanishesY(Part(before, m, r), before[c - 1].y, n, f0);
    }
  }

  lemma SameEntriesFit(before: seq<Pair>, ps: seq<Pair>, m: nat, n: nat, f0: set<int>, k: nat)
    requires |before| == |ps| <= m && Sized(before, n) && Sized(ps, n) && f0 <= All(n)
    requires forall r, c :: InBlocks(|ps|, m, r, c) && Beyond(k, m, r, c) ==>
      Entry(before, m, n, f0, r, c) == Entry(ps, m, n, {}, r, c)
    ensures OldPlacesFit(before, ps, n, f0, k)
  {
    hide Dot, DotIn, Entry;
    forall q, v | k <= q < |ps| && 1 <= v <= n && v in f0 ensures before[q].y[v - 1] == 0.0 {
      SameEntry(before, ps, m, n, f0, k, q + 1, q + 1);
      SquareVanishesAt(before[q].y, f0, n, v);
    }
    forall i, j | k <= j <= i < |ps|
      ensures DotIn(before[i].s, before[j].s, All(n) - f0) == Dot(ps[i].s, ps[j].s)
    {
      SameEntry(before, ps, m, n, f0, k, m + i + 1, m + j + 1);
    }
    forall i, j | k <= j < i < |ps|
      ensures DotIn(before[i].s, before[j].y, All(n) - f0) == Dot(ps[i].s, ps[j].y)
    {
      SameEntry(before, ps, m, n, f0, k, m + i + 1, j + 1);
    }
  }

  lemma SameEntry(before: seq<Pair>, ps: seq<Pair>, m: nat, n: nat, f0: set<int>, k: nat, r: int, c: int)
    requires |before| == |ps| <= m && Sized(before, n) && Sized(ps, n) && f0 <= All(n)
    requires forall r, c :: InBlocks(|ps|, m, r, c) && Beyond(k, m, r, c) ==>
      Entry(before, m, n, f0, r, c) == Entry(ps, m, n, {}, r, c)
    requires InBlocks(|ps|, m, r, c) && Beyond(k, m, r, c)
    ensures var u, v := Part(before, m, r), Part(before, m, c);
      if OnFree(m, r, c) then DotIn(u, v, f0) == 0.0
      else DotIn(u, v, All(n) - f0) == Dot(Part(ps, m, r), Part(ps, m, c))
  {
    hide Dot, DotIn;
    EntryOfNone(ps, m, n, r, c);
  }

  lemma DotInVanishesY(u: Vector, v: Vector, n: nat, f: set<int>)
    requires |u| == |v| == n && forall k :: 1 <= k <= n && k in f ==> v[k - 1] == 0.0
    ensures DotIn(u, v, f) == 0.0
  {
    DotInVanishes(u, v, f, n);
  }

  lemma SquareVanishesAt(u: Vector, f: set<int>, n: nat, k: int)
    requires |u| == n && DotIn(u, u, f) == 0.0 && 1 <= k <= n && k in f
    ensures u[k - 1] == 0.0
  {
    SquaresVanish(u, f, n);
  }

  /**
   * A skipped call is always harmful if the place of the new pair's s's is still zero, as it is when
   * the memory first grows to this size: an accepted step is not zero.
   */
  lemma FreshPlaceIsWrong(wn1: array2<real>, before: seq<Pair>, ps: seq<Pair>, m: nat, n: nat, f0: set<int>)
    requires Caches(wn1, before, m, n, f0) && f0 <= All(n) && |ps| <= m && Sized(ps, n)
    requires Follows(before, ps, true, false) && wn1[m + |ps|, m + |ps|] == 0.0
    requires Dot(ps[|ps| - 1].s, ps[|ps| - 1].y) > 0.0
    ensures !Caches(wn1, ps, m, n, {})
  {
    var col := |ps|;
    var s, y := ps[col - 1].s, ps[col - 1].y;
    EntryOfNone(ps, m, n, m + col, m + col);
    SelfDotNotNegative(s, n);
    if Dot(s, s) == 0.0 {
      ZeroDotTo(s, y, n);
    }
  }

  lemma {:induction false} ZeroDotTo(u: Vector, v: Vector, k: nat)
    requires k <= |u| == |v| && forall i :: 0 <= i < |u| ==> u[i] == 0.0
    ensures DotTo(u, v, k) == 0.0
  {
    if k > 0 {
      ZeroDotTo(u, v, k - 1);
      TimesZero(v[k - 1]);
    }
  }

  /** For instance: the first pair is accepted when no variable is free, in a memory for two. */
  lemma FirstPairSkipped(wn1: array2<real>)
    requires wn1.Length0 == wn1.Length1 == 5 && wn1[3, 3] == 0.0
    ensures var ps := [Pair([1.0], [1.0])];
      && Caches(wn1, [], 2, 1, {}) && VanishOn(ps, 1, {}, 0) && Follows([], ps, true, false)
      && !Caches(wn1, ps, 2, 1, {})
  {
    var ps := [Pair([1.0], [1.0])];
    assert Caches(wn1, [], 2, 1, {});
    assert ps[..0] == [];
    NextTermOfOne();
    FreshPlaceIsWrong(wn1, [], ps, 2, 1, {});
  }

  lemma NextTermOfOne()
    ensures Dot([1.0], [1.0]) == 1.0
  {
    assert DotTo([1.0], [1.0], 1) == DotTo([1.0], [1.0], 0) + Term([1.0], [1.0], 1);
  }

  /** The arrays that formk works on. */
  class Subspace {
    const n: nat
    const m: nat
    const ws: array2<real>
    const wy: array2<real>
    const wn1: array2<real>
    const ind: array<int>
    const indx2: array<int>

    constructor (n: nat, m: nat, ws: array2<real>, wy: array2<real>, ind: array<int>, indx2: array<int>)
      requires m >= 1 && ws.Length0 == wy.Length0 == n + 1 && ws.Length1 == wy.Length1 == m + 1
      requires ind.Length == indx2.Length == n + 1
      ensures Shapes() && fresh(wn1) && this.n == n && this.m == m
      ensures this.ws == ws && this.wy == wy && this.ind == ind && this.indx2 == indx2
    {
      this.n := n;
      this.m := m;
      this.ws := ws;
      this.wy := wy;
      this.ind := ind;
      this.indx2 := indx2;
      wn1 := new real[2 * m + 1, 2 * m + 1];
    }

    ghost predicate Shapes() {
      && m >= 1
      && ws.Length0 == wy.Length0 == n + 1 && ws.Length1 == wy.Length1 == m + 1
      && wn1.Length0 == wn1.Length1 == 2 * m + 1
      && wn1 != ws && wn1 != wy
      && ind.Length == indx2.Length == n + 1
    }

    /** The ring holds the pairs ps. */
    ghost predicate Ring(head: nat, col: nat, ps: seq<Pair>)
      reads ws, wy
    {
      Shapes() && 1 <= col == |ps| <= m && Sized(ps, n) && Stored(ws, wy, head, m, ps)
    }

    ghost predicate FreeLists(nsub: nat, f: set<int>)
      reads ind
    {
      Shapes() && ListedAt(ind, 1, nsub + 1, n, f) && ListedAt(ind, nsub + 1, n + 1, n, All(n) - f)
    }

    ghost predicate ChangeLists(nenter: nat, ileave: nat, enter: set<int>, leave: set<int>)
      reads indx2
    {
      Shapes() && ListedAt(indx2, 1, nenter + 1, n, enter) && ListedAt(indx2, ileave, n + 1, n, leave)
    }

    ghost predicate Right(ps: seq<Pair>, f: set<int>, r: int, c: int)
      requires Shapes() && |ps| <= m && Sized(ps, n) && InBlocks(|ps|, m, r, c)
      reads wn1
    {
      wn1[r, c] == Entry(ps, m, n, f, r, c)
    }

    predicate InColumn(r: int, c: int, row: int, jy: int) {
      (r == row && c == jy) || (r == m + row && (c == jy || c == m + jy))
    }

    /** Column number jy of the new rows. */
    method RowEntries(ipntr: nat, jpntr: nat, jy: nat, col: nat, nsub: nat, ghost head: nat, ghost ps: seq<Pair>,
                      ghost f: set<int>)
      requires Ring(head, col, ps) && FreeLists(nsub, f) && 1 <= jy <= col
      requires ipntr == Slot(head, col - 1, m) && jpntr == Slot(head, jy - 1, m) && 1 <= ipntr <= m && 1 <= jpntr <= m
      modifies wn1
      ensures Right(ps, f, col, jy) && Right(ps, f, m + col, m + jy) && (jy < col ==> Right(ps, f, m + col, jy))
      ensures forall r, c {:trigger wn1[r, c]} :: 0 <= r <= 2 * m && 0 <= c <= 2 * m && !InColumn(r, c, col, jy) ==>
        wn1[r, c] == old(wn1[r, c])
    {
      hide DotIn, Slot, Lists;
      assert StoredAt(ws, wy, ipntr, ps[col - 1]) && StoredAt(ws, wy, jpntr, ps[jy - 1]);
      var temp1 := SumInSet(wy, ipntr, wy, jpntr, ind, 1, nsub + 1, n, f, ps[col - 1].y, ps[jy - 1].y);
      var temp2 := SumInSet(ws, ipntr, ws, jpntr, ind, nsub + 1, n + 1, n, All(n) - f, ps[col - 1].s, ps[jy - 1].s);
      var temp3 := SumInSet(ws, ipntr, wy, jpntr, ind, nsub + 1, n + 1, n, All(n) - f, ps[col - 1].s, ps[jy - 1].y);
      wn1[col, jy] := temp1;
      wn1[m + col, m + jy] := temp2;
      wn1[m + col, jy] := temp3;
    }

    /** The same, as part of the new rows. */
    method NextEntries(ipntr: nat, jpntr: nat, jy: nat, col: nat, nsub: nat, ghost head: nat, ghost ps: seq<Pair>,
                       ghost f: set<int>)
      requires Ring(head, col, ps) && FreeLists(nsub, f) && 1 <= jy <= col && RowRight(ps, f, col, jy)
      requires ipntr == Slot(head, col - 1, m) && jpntr == Slot(head, jy - 1, m) && 1 <= ipntr <= m && 1 <= jpntr <= m
      modifies wn1
      ensures RowRight(ps, f, col, jy + 1)
      ensures forall r, c {:trigger wn1[r, c]} :: 0 <= r <= 2 * m && 0 <= c <= 2 * m && r != col && r != m + col ==>
        wn1[r, c] == old(wn1[r, c])
    {
      hide Entry, Slot, Lists, Stored;
      RowEntries(ipntr, jpntr, jy, col, nsub, head, ps, f);
    }

    /** Of the new rows, those entries are right that belong to the columns before jy. */
    ghost predicate RowRight(ps: seq<Pair>, f: set<int>, col: nat, jy: int)
      requires Shapes() && 1 <= col == |ps| <= m && Sized(ps, n) && jy <= col + 1
      reads wn1
    {
      && (forall c {:trigger Right(ps, f, col, c)} {:trigger wn1[col, c]} :: 1 <= c < jy ==> Right(ps, f, col, c))
      && (forall c {:trigger Right(ps, f, m + col, c)} {:trigger wn1[m + col, c]} ::
        m < c < m + jy || (1 <= c < jy && c < col) ==> Right(ps, f, m + col, c))
    }

    /** The new row in each of the three blocks. */
    method AddRow(head: nat, col: nat, nsub: nat, ghost ps: seq<Pair>, ghost f: set<int>)
      requires Ring(head, col, ps) && FreeLists(nsub, f)
      modifies wn1
      ensures forall c {:trigger Right(ps, f, col, c)} {:trigger wn1[col, c]} :: 1 <= c <= col ==> Right(ps, f, col, c)
      ensures forall c {:trigger Right(ps, f, m + col, c)} {:trigger wn1[m + col, c]} ::
        m < c <= m + col || 1 <= c < col ==> Right(ps, f, m + col, c)
      ensures forall r, c {:trigger wn1[r, c]} :: 0 <= r <= 2 * m && 0 <= c <= 2 * m && r != col && r != m + col ==>
        wn1[r, c] == old(wn1[r, c])
    {
      hide Entry, Slot, ListedAt, Stored, RowRight, Right, NextSlot;
      assert 1 <= head <= m by { RingHead(head, col, ps); }
      var ipntr := head + col - 1;
      if ipntr > m {
        ipntr := ipntr - m;
      }
      var jpntr := head;
      NewSlot(head, col, m);
      SlotStep(head, 0, m);
      var jy := 1;
      RowStarts(ps, f, col);
      while jy <= col
        invariant 1 <= jy <= col + 1 && (jy <= col ==> jpntr == Slot(head, jy - 1, m))
        invariant RowRight(ps, f, col, jy)
        invariant forall r, c {:trigger wn1[r, c]} :: 0 <= r <= 2 * m && 0 <= c <= 2 * m && r != col && r != m + col ==>
          wn1[r, c] == old(wn1[r, c])
      {
        SlotFollows(head, jy - 1, m);
        NextEntries(ipntr, jpntr, jy, col, nsub, head, ps, f);
        jpntr := NextSlot(jpntr, m);
        jy := jy + 1;
      }
      RowComplete(ps, f, col);
    }

    lemma RowStarts(ps: seq<Pair>, f: set<int>, col: nat)
      requires Shapes() && 1 <= col == |ps| <= m && Sized(ps, n)
      ensures RowRight(ps, f, col, 1)
    {
    }

    lemma RowComplete(ps: seq<Pair>, f: set<int>, col: nat)
      requires Shapes() && 1 <= col == |ps| <= m && Sized(ps, n) && RowRight(ps, f, col, col + 1)
      ensures forall c {:trigger Right(ps, f, col, c)} {:trigger wn1[col, c]} :: 1 <= c <= col ==> Right(ps, f, col, c)
      ensures forall c {:trigger Right(ps, f, m + col, c)} {:trigger wn1[m + col, c]} ::
        m < c <= m + col || 1 <= c < col ==> Right(ps, f, m + col, c)
    {
    }

    /** The new column of block (2,1). */
    method AddColumn(head: nat, col: nat, nsub: nat, ghost ps: seq<Pair>, ghost f: set<int>)
      requires Ring(head, col, ps) && FreeLists(nsub, f)
      modifies wn1
      ensures forall r {:trigger Right(ps, f, r, col)} {:trigger wn1[r, col]} :: m < r <= m + col ==>
        Right(ps, f, r, col)
      ensures forall r, c {:trigger wn1[r, c]} :: 0 <= r <= 2 * m && 0 <= c <= 2 * m && (r <= m || c != col) ==>
        wn1[r, c] == old(wn1[r, c])
    {
      hide Slot, Lists, Stored, DotIn, NextSlot;
      assert 1 <= head <= m by { RingHead(head, col, ps); }
      var jpntr := head + col - 1;
      if jpntr > m {
        jpntr := jpntr - m;
      }
      var ipntr := head;
      NewSlot(head, col, m);
      SlotStep(head, 0, m);
      var i := 1;
      while i <= col
        invariant 1 <= i <= col + 1 && (i <= col ==> ipntr == Slot(head, i - 1, m))
        invariant forall r {:trigger Right(ps, f, r, col)} {:trigger wn1[r, col]} :: m < r < m + i ==>
          Right(ps, f, r, col)
        invariant forall r, c {:trigger wn1[r, c]} :: 0 <= r <= 2 * m && 0 <= c <= 2 * m && (r <= m || c != col) ==>
          wn1[r, c] == old(wn1[r, c])
      {
        SlotFollows(head, i - 1, m);
        SlotHolds(head, col, ps, i);
        SlotHolds(head, col, ps, col);
        var temp3 := SumInSet(ws, ipntr, wy, jpntr, ind, 1, nsub + 1, n, f, ps[i - 1].s, ps[col - 1].y);
        ipntr := NextSlot(ipntr, m);
        wn1[m + i, col] := temp3;
        i := i + 1;
      }
    }

    lemma SlotHolds(head: nat, col: nat, ps: seq<Pair>, i: nat)
      requires Ring(head, col, ps) && 1 <= i <= col
      ensures 1 <= Slot(head, i - 1, m) <= m
      ensures StoredAt(ws, wy, Slot(head, i - 1, m), ps[i - 1])
    {
    }

    /** Moves one column of each block one place up and to the left. */
    method ShiftColumn(jy: nat)
      requires Shapes() && 1 <= jy < m
      modifies wn1
      ensures forall r, c {:trigger wn1[r, c]} :: InBlocks(m - 1, m, r, c) && (c == jy || c == m + jy) ==>
        wn1[r, c] == old(wn1[r + 1, c + 1])
      ensures forall r, c {:trigger wn1[r, c]} :: 0 <= r <= 2 * m && 0 <= c <= 2 * m && c != jy && c != m + jy ==>
        wn1[r, c] == old(wn1[r, c])
    {
      var js := m + jy;
      Dcopy(wn1, m - jy, jy + 1, jy + 1, jy, jy);
      Dcopy(wn1, m - jy, js + 1, js + 1, js, js);
      Dcopy(wn1, m - 1, m + 2, jy + 1, m + 1, jy);
    }

    /** Drops the oldest pair from the three blocks. */
    method Shift()
      requires Shapes()
      modifies wn1
      ensures forall r, c {:trigger wn1[r, c]} :: InBlocks(m - 1, m, r, c) ==> wn1[r, c] == old(wn1[r + 1, c + 1])
    {
      var jy := 1;
      while jy <= m - 1
        invariant 1 <= jy <= m
        invariant forall r, c {:trigger wn1[r, c]} :: InBlocks(m - 1, m, r, c) && (c < jy || m < c < m + jy) ==>
          wn1[r, c] == old(wn1[r + 1, c + 1])
        invariant forall r, c {:trigger wn1[r, c]} ::
          0 <= r <= 2 * m && (jy <= c <= m || m + jy <= c <= 2 * m) ==> wn1[r, c] == old(wn1[r, c])
      {
        ShiftColumn(jy);
        jy := jy + 1;
      }
    }

    /** The correction of an entry that is due (on), or none. */
    ghost function Adjust(ps: seq<Pair>, enter: set<int>, leave: set<int>, r: int, c: int, on: bool): real
      requires on ==> |ps| <= m && Sized(ps, n) && InBlocks(|ps|, m, r, c)
    {
      if on then Delta(ps, m, n, enter, leave, r, c) else 0.0
    }

    /** The positions in blocks (1,1) and (2,2) that come before (iy, jy) and (m + iy, m + jy). */
    predicate SquareDone(iy: int, jy: int, r: int, c: int) {
      || 1 <= c <= r < iy || (r == iy && 1 <= c < jy)
      || m < c <= r < m + iy || (r == m + iy && m < c < m + jy)
    }

    /** The positions of block (2,1) up to column k that come before (row, jy). */
    predicate CrossDone(row: int, jy: int, k: int, r: int, c: int) {
      (m < r < row && 1 <= c <= k) || (r == row && 1 <= c < jy)
    }

    /** The products of two columns over the variables that enter and over those that leave. */
    method ChangeSums(a: array2<real>, p: nat, b: array2<real>, q: nat, nenter: nat, ileave: nat,
                      ghost enter: set<int>, ghost leave: set<int>, ghost u: Vector, ghost v: Vector)
      returns (entering: real, leaving: real)
      requires ChangeLists(nenter, ileave, enter, leave)
      requires a.Length0 == b.Length0 == n + 1 && p < a.Length1 && q < b.Length1
      requires Column(a, p) == u && Column(b, q) == v
      ensures entering == DotIn(u, v, enter) && leaving == DotIn(u, v, leave)
    {
      hide DotIn, ListedAt;
      entering := SumInSet(a, p, b, q, indx2, 1, nenter + 1, n, enter, u, v);
      leaving := SumInSet(a, p, b, q, indx2, ileave, n + 1, n, leave, u, v);
    }

    /** Corrects one entry of block (1,1) and one of block (2,2). */
    method CorrectSquare(ipntr: nat, jpntr: nat, iy: nat, jy: nat, nenter: nat, ileave: nat, ghost head: nat,
                         ghost col: nat, ghost ps: seq<Pair>, ghost enter: set<int>, ghost leave: set<int>)
      requires Ring(head, col, ps) && ChangeLists(nenter, ileave, enter, leave) && 1 <= jy <= iy <= col
      requires ipntr == Slot(head, iy - 1, m) && jpntr == Slot(head, jy - 1, m) && 1 <= ipntr <= m && 1 <= jpntr <= m
      modifies wn1
      ensures forall r, c {:trigger wn1[r, c]} :: 0 <= r <= 2 * m && 0 <= c <= 2 * m ==>
        wn1[r, c] == old(wn1[r, c]) +
          Adjust(ps, enter, leave, r, c, (r == iy && c == jy) || (r == m + iy && c == m + jy))
    {
      hide DotIn, Slot, Lists;
      assert StoredAt(ws, wy, ipntr, ps[iy - 1]) && StoredAt(ws, wy, jpntr, ps[jy - 1]);
      ghost var u, v := ps[iy - 1], ps[jy - 1];
      var temp1, temp3 := ChangeSums(wy, ipntr, wy, jpntr, nenter, ileave, enter, leave, u.y, v.y);
      var temp2, temp4 := ChangeSums(ws, ipntr, ws, jpntr, nenter, ileave, enter, leave, u.s, v.s);
      wn1[iy, jy] := wn1[iy, jy] + temp1 - temp3;
      wn1[m + iy, m + jy] := wn1[m + iy, m + jy] - temp2 + temp4;
    }

    /** Corrects one entry of block (2,1). */
    method CorrectCross(ipntr: nat, jpntr: nat, row: nat, jy: nat, nenter: nat, ileave: nat, ghost head: nat,
                        ghost col: nat, ghost ps: seq<Pair>, ghost enter: set<int>, ghost leave: set<int>)
      requires Ring(head, col, ps) && ChangeLists(nenter, ileave, enter, leave) && 1 <= jy <= col && m < row <= m + col
      requires ipntr == Slot(head, row - m - 1, m) && jpntr == Slot(head, jy - 1, m)
      requires 1 <= ipntr <= m && 1 <= jpntr <= m
      modifies wn1
      ensures forall r, c {:trigger wn1[r, c]} :: 0 <= r <= 2 * m && 0 <= c <= 2 * m ==>
        wn1[r, c] == old(wn1[r, c]) + Adjust(ps, enter, leave, r, c, r == row && c == jy)
    {
      hide DotIn, Slot, Lists;
      assert StoredAt(ws, wy, ipntr, ps[row - m - 1]) && StoredAt(ws, wy, jpntr, ps[jy - 1]);
      ghost var u, v := ps[row - m - 1], ps[jy - 1];
      var temp1, temp3 := ChangeSums(ws, ipntr, wy, jpntr, nenter, ileave, enter, leave, u.s, v.y);
      if row <= jy + m {
        wn1[row, jy] := wn1[row, jy] + temp1 - temp3;
      } else {
        wn1[row, jy] := wn1[row, jy] - temp1 + temp3;
      }
    }

    /** Entry c of one row of blocks (1,1) and (2,2) that comes before jy. */
    predicate SquareRowDone(iy: int, jy: int, r: int, c: int) {
      (r == iy && 1 <= c < jy) || (r == m + iy && m < c < m + jy)
    }

    /** Corrects one row of blocks (1,1) and (2,2). */
    method CorrectSquareRow(ipntr: nat, iy: nat, nenter: nat, ileave: nat, head: nat, ghost col: nat,
                            ghost ps: seq<Pair>, ghost enter: set<int>, ghost leave: set<int>)
      requires Ring(head, col, ps) && ChangeLists(nenter, ileave, enter, leave) && 1 <= iy <= col
      requires 1 <= head <= m && ipntr == Slot(head, iy - 1, m) && 1 <= ipntr <= m
      modifies wn1
      ensures forall r, c {:trigger wn1[r, c]} :: 0 <= r <= 2 * m && 0 <= c <= 2 * m ==>
        wn1[r, c] == old(wn1[r, c]) + Adjust(ps, enter, leave, r, c, SquareRowDone(iy, iy + 1, r, c))
    {
      hide Delta, Slot, ListedAt, Stored, NextSlot;
      SlotStep(head, 0, m);
      var jpntr := head;
      var jy := 1;
      while jy <= iy
        invariant 1 <= jy <= iy + 1 && (jy <= iy ==> jpntr == Slot(head, jy - 1, m))
        invariant forall r, c {:trigger wn1[r, c]} :: 0 <= r <= 2 * m && 0 <= c <= 2 * m ==>
          wn1[r, c] == old(wn1[r, c]) + Adjust(ps, enter, leave, r, c, SquareRowDone(iy, jy, r, c))
      {
        SlotFollows(head, jy - 1, m);
        CorrectSquare(ipntr, jpntr, iy, jy, nenter, ileave, head, col, ps, enter, leave);
        jpntr := NextSlot(jpntr, m);
        jy := jy + 1;
      }
    }

    /** Corrects the first upcl rows of blocks (1,1) and (2,2). */
    method CorrectSquares(head: nat, col: nat, upcl: nat, nenter: nat, ileave: nat, ghost ps: seq<Pair>,
                          ghost enter: set<int>, ghost leave: set<int>)
      requires Ring(head, col, ps) && ChangeLists(nenter, ileave, enter, leave) && upcl <= col
      modifies wn1
      ensures forall r, c {:trigger wn1[r, c]} :: 0 <= r <= 2 * m && 0 <= c <= 2 * m ==>
        wn1[r, c] == old(wn1[r, c]) + Adjust(ps, enter, leave, r, c, SquareDone(upcl + 1, 1, r, c))
    {
      hide Delta, Slot, ListedAt, Stored, NextSlot;
      assert 1 <= head <= m by { RingHead(head, col, ps); }
      var ipntr := head;
      SlotStep(head, 0, m);
      var iy := 1;
      while iy <= upcl
        invariant 1 <= iy <= upcl + 1 && (iy <= upcl ==> ipntr == Slot(head, iy - 1, m))
        invariant forall r, c {:trigger wn1[r, c]} :: 0 <= r <= 2 * m && 0 <= c <= 2 * m ==>
          wn1[r, c] == old(wn1[r, c]) + Adjust(ps, enter, leave, r, c, SquareDone(iy, 1, r, c))
      {
        SlotFollows(head, iy - 1, m);
        CorrectSquareRow(ipntr, iy, nenter, ileave, head, col, ps, enter, leave);
        ipntr := NextSlot(ipntr, m);
        iy := iy + 1;
      }
    }

    /** Corrects one row of block (2,1). */
    method CorrectCrossRow(ipntr: nat, row: nat, upcl: nat, nenter: nat, ileave: nat, head: nat, ghost col: nat,
                           ghost ps: seq<Pair>, ghost enter: set<int>, ghost leave: set<int>)
      requires Ring(head, col, ps) && ChangeLists(nenter, ileave, enter, leave) && upcl <= col && m < row <= m + col
      requires 1 <= head <= m && ipntr == Slot(head, row - m - 1, m) && 1 <= ipntr <= m
      modifies wn1
      ensures forall r, c {:trigger wn1[r, c]} :: 0 <= r <= 2 * m && 0 <= c <= 2 * m ==>
        wn1[r, c] == old(wn1[r, c]) + Adjust(ps, enter, leave, r, c, r == row && 1 <= c <= upcl)
    {
      hide Delta, Slot, ListedAt, Stored, NextSlot;
      SlotStep(head, 0, m);
      var jpntr := head;
      var jy := 1;
      while jy <= upcl
        invariant 1 <= jy <= upcl + 1 && (jy <= upcl ==> jpntr == Slot(head, jy - 1, m))
        invariant forall r, c {:trigger wn1[r, c]} :: 0 <= r <= 2 * m && 0 <= c <= 2 * m ==>
          wn1[r, c] == old(wn1[r, c]) + Adjust(ps, enter, leave, r, c, r == row && 1 <= c < jy)
      {
        SlotFollows(head, jy - 1, m);
        CorrectCross(ipntr, jpntr, row, jy, nenter, ileave, head, col, ps, enter, leave);
        jpntr := NextSlot(jpntr, m);
        jy := jy + 1;
      }
    }

    /** Corrects the first upcl rows and columns of block (2,1). */
    method CorrectBlock21(head: nat, col: nat, upcl: nat, nenter: nat, ileave: nat, ghost ps: seq<Pair>,
                          ghost enter: set<int>, ghost leave: set<int>)
      requires Ring(head, col, ps) && ChangeLists(nenter, ileave, enter, leave) && upcl <= col
      modifies wn1
      ensures forall r, c {:trigger wn1[r, c]} :: 0 <= r <= 2 * m && 0 <= c <= 2 * m ==>
        wn1[r, c] == old(wn1[r, c]) + Adjust(ps, enter, leave, r, c, CrossDone(m + upcl + 1, 1, upcl, r, c))
    {
      hide Delta, Slot, ListedAt, Stored, NextSlot;
      assert 1 <= head <= m by { RingHead(head, col, ps); }
      var ipntr := head;
      SlotStep(head, 0, m);
      var row := m + 1;
      while row <= m + upcl
        invariant m < row <= m + upcl + 1 && (row <= m + upcl ==> ipntr == Slot(head, row - m - 1, m))
        invariant forall r, c {:trigger wn1[r, c]} :: 0 <= r <= 2 * m && 0 <= c <= 2 * m ==>
          wn1[r, c] == old(wn1[r, c]) + Adjust(ps, enter, leave, r, c, CrossDone(row, 1, upcl, r, c))
      {
        SlotFollows(head, row - m - 1, m);
        CorrectCrossRow(ipntr, row, upcl, nenter, ileave, head, col, ps, enter, leave);
        ipntr := NextSlot(ipntr, m);
        row := row + 1;
      }
    }

    /**
     * What one call leaves in wn1. shift is 1 if the oldest pair is dropped, up counts the rows
     * that are corrected; the other entries belong to the newest pair and are computed afresh.
     */
    twostate predicate Refreshed(ps: seq<Pair>, f: set<int>, enter: set<int>, leave: set<int>, shift: int, up: int)
      requires Shapes() && |ps| <= m && Sized(ps, n) && 0 <= up <= |ps| && 0 <= shift <= 1 && up + shift <= m
      reads wn1
    {
      && (forall r, c {:trigger wn1[r, c]} :: InBlocks(up, m, r, c) ==>
        wn1[r, c] == old(wn1[r + shift, c + shift]) + Delta(ps, m, n, enter, leave, r, c))
      && (forall r, c {:trigger wn1[r, c]} :: InBlocks(|ps|, m, r, c) && !InBlocks(up, m, r, c) ==>
        Right(ps, f, r, c))
    }

    /** The part of formk that brings wn1 up to date. */
    method Update(head: nat, col: nat, nsub: nat, nenter: nat, ileave: nat, updatd: bool, iupdat: nat,
                  ghost ps: seq<Pair>, ghost f: set<int>, ghost enter: set<int>, ghost leave: set<int>)
      requires Ring(head, col, ps) && FreeLists(nsub, f) && ChangeLists(nenter, ileave, enter, leave)
      requires iupdat > m ==> col == m
      modifies wn1
      ensures Refreshed(ps, f, enter, leave, if updatd && iupdat > m then 1 else 0, if updatd then col - 1 else col)
    {
      hide Entry, Delta, ListedAt, Stored, Sized;
      var upcl;
      if updatd {
        AddPair(head, col, nsub, iupdat, ps, f);
        upcl := col - 1;
      } else {
        upcl := col;
      }
      label Added:
      Correct(head, col, upcl, nenter, ileave, ps, enter, leave);
      forall r, c | InBlocks(col, m, r, c) && !InBlocks(upcl, m, r, c) ensures Right(ps, f, r, c) {
        assert old@Added(Right(ps, f, r, c));
      }
    }

    /** Corrects the first upcl rows of all blocks. */
    method Correct(head: nat, col: nat, upcl: nat, nenter: nat, ileave: nat, ghost ps: seq<Pair>,
                   ghost enter: set<int>, ghost leave: set<int>)
      requires Ring(head, col, ps) && ChangeLists(nenter, ileave, enter, leave) && upcl <= col
      modifies wn1
      ensures forall r, c {:trigger wn1[r, c]} :: 0 <= r <= 2 * m && 0 <= c <= 2 * m ==>
        wn1[r, c] == old(wn1[r, c]) + Adjust(ps, enter, leave, r, c, InBlocks(upcl, m, r, c))
    {
      hide Delta, ListedAt, Stored, Sized;
      CorrectSquares(head, col, upcl, nenter, ileave, ps, enter, leave);
      CorrectBlock21(head, col, upcl, nenter, ileave, ps, enter, leave);
    }

    /** Makes room for the newest pair and computes its entries. */
    method AddPair(head: nat, col: nat, nsub: nat, iupdat: nat, ghost ps: seq<Pair>, ghost f: set<int>)
      requires Ring(head, col, ps) && FreeLists(nsub, f) && (iupdat > m ==> col == m)
      modifies wn1
      ensures forall r, c {:trigger wn1[r, c]} :: InBlocks(col - 1, m, r, c) ==>
        wn1[r, c] == if iupdat > m then old(wn1[r + 1, c + 1]) else old(wn1[r, c])
      ensures forall r, c {:trigger wn1[r, c]} :: InBlocks(col, m, r, c) && !InBlocks(col - 1, m, r, c) ==>
        Right(ps, f, r, c)
    {
      hide Entry, ListedAt, Stored, Sized;
      if iupdat > m {
        Shift();
      }
      AddRow(head, col, nsub, ps, f);
      label Row:
      AddColumn(head, col, nsub, ps, f);
      forall r, c | InBlocks(col, m, r, c) && !InBlocks(col - 1, m, r, c) ensures Right(ps, f, r, c) {
        if c == col && r > m {
          assert Right(ps, f, r, col);
        } else {
          assert old@Row(Right(ps, f, r, c)) by {
            if r <= m {
              assert old@Row(Right(ps, f, col, c));
            } else {
              assert old@Row(Right(ps, f, m + col, c));
            }
          }
        }
      }
    }

    /** The entries between pairs behind the first k are what computing from scratch would give. */
    ghost predicate RightBeyond(ps: seq<Pair>, f: set<int>, k: int)
      requires Shapes() && |ps| <= m && Sized(ps, n)
      reads wn1
    {
      forall r, c {:trigger wn1[r, c]} {:trigger Right(ps, f, r, c)} ::
        InBlocks(|ps|, m, r, c) && Beyond(k, m, r, c) ==> Right(ps, f, r, c)
    }

    lemma CachesIsRight(ps: seq<Pair>, f: set<int>)
      requires Shapes() && |ps| <= m && Sized(ps, n)
      ensures Caches(wn1, ps, m, n, f) <==> RightBeyond(ps, f, 0)
    {
      hide Entry;
      if RightBeyond(ps, f, 0) {
        forall r, c | InBlocks(|ps|, m, r, c) ensures wn1[r, c] == Entry(ps, m, n, f, r, c) {
          assert Right(ps, f, r, c);
        }
      }
    }

    lemma CachesBeyondIsRight(ps: seq<Pair>, f: set<int>, k: nat)
      requires Shapes() && |ps| <= m && Sized(ps, n)
      ensures CachesBeyond(wn1, ps, m, n, f, k) <==> RightBeyond(ps, f, k)
    {
      hide Entry, Beyond;
      if RightBeyond(ps, f, k) {
        forall r, c | InBlocks(|ps|, m, r, c) && Beyond(k, m, r, c) ensures wn1[r, c] == Entry(ps, m, n, f, r, c) {
          assert Right(ps, f, r, c);
        }
      }
    }

    /** An entry that is kept is right exactly if it was right before the call, and all others are right. */
    method Renew(head: nat, col: nat, nsub: nat, nenter: nat, ileave: nat, updatd: bool, iupdat: nat,
                 ghost before: seq<Pair>, ghost ps: seq<Pair>, ghost f0: set<int>, ghost f: set<int>, ghost shift: int,
                 ghost up: int)
      requires Ring(head, col, ps) && FreeLists(nsub, f) && ChangeLists(nenter, ileave, f - f0, f0 - f)
      requires iupdat > m ==> col == m
      requires f <= All(n) && f0 <= All(n) && Follows(before, ps, updatd, updatd && iupdat > m)
      requires |before| <= m && Sized(before, n)
      requires shift == (if updatd && iupdat > m then 1 else 0) && up == if updatd then col - 1 else col
      modifies wn1
      ensures up + shift == |before|
      ensures forall r, c {:trigger wn1[r, c]} {:trigger Right(ps, f, r, c)} :: InBlocks(up, m, r, c) ==>
        (Right(ps, f, r, c) <==> old(Right(before, f0, r + shift, c + shift)))
      ensures forall r, c {:trigger wn1[r, c]} {:trigger Right(ps, f, r, c)} ::
        InBlocks(col, m, r, c) && !InBlocks(up, m, r, c) ==> Right(ps, f, r, c)
    {
      hide Entry, Delta, ListedAt, Stored, Follows, KeptShifted;
      FollowsShifted(before, ps, updatd, updatd && iupdat > m);
      Update(head, col, nsub, nenter, ileave, updatd, iupdat, ps, f, f - f0, f0 - f);
      forall r, c | InBlocks(up, m, r, c)
        ensures Right(ps, f, r, c) <==> old(Right(before, f0, r + shift, c + shift))
      {
        KeptEntry(before, ps, m, n, f0, f, shift, up, r, c);
      }
    }

    /**
     * formk, up to wn1: given the pairs (before) and free variables (f0) of the previous iteration,
     * an entry that is kept is right exactly if it was right before, and all others are right.
     */
    method Formk(head: nat, col: nat, nsub: nat, nenter: nat, ileave: nat, updatd: bool, iupdat: nat,
                 ghost before: seq<Pair>, ghost ps: seq<Pair>, ghost f0: set<int>, ghost f: set<int>)
      requires Ring(head, col, ps) && FreeLists(nsub, f) && ChangeLists(nenter, ileave, f - f0, f0 - f)
      requires iupdat > m ==> col == m
      requires f <= All(n) && f0 <= All(n) && Follows(before, ps, updatd, updatd && iupdat > m)
      requires |before| <= m && Sized(before, n)
      modifies wn1
      ensures var shift := if updatd && iupdat > m then 1 else 0;
        forall k: nat {:trigger RightBeyond(ps, f, k)} ::
          RightBeyond(ps, f, k) <==> old(RightBeyond(before, f0, k + shift))
      ensures Caches(wn1, ps, m, n, f) <==> old(RightBeyond(before, f0, if updatd && iupdat > m then 1 else 0))
    {
      hide Entry, Delta, ListedAt, Stored, Follows, Right;
      ghost var shift, up := if updatd && iupdat > m then 1 else 0, if updatd then col - 1 else col;
      Renew(head, col, nsub, nenter, ileave, updatd, iupdat, before, ps, f0, f, shift, up);
      forall k: nat ensures RightBeyond(ps, f, k) <==> old(RightBeyond(before, f0, k + shift)) {
        if RightBeyond(ps, f, k) {
          forall r, c | InBlocks(|before|, m, r, c) && Beyond(k + shift, m, r, c) ensures old(Right(before, f0, r, c)) {
            assert InBlocks(up, m, r - shift, c - shift) && Beyond(k, m, r - shift, c - shift);
            assert Right(ps, f, r - shift, c - shift);
          }
        }
        if old(RightBeyond(before, f0, k + shift)) {
          forall r, c | InBlocks(col, m, r, c) && Beyond(k, m, r, c) ensures Right(ps, f, r, c) {
            if InBlocks(up, m, r, c) {
              assert Beyond(k + shift, m, r + shift, c + shift);
              assert old(Right(before, f0, r + shift, c + shift));
            }
          }
        }
      }
      CachesIsRight(ps, f);
    }

    /**
     * The decision of the driver whether to call formk. Without a call the matrix stays as it is.
     */
    method FormIfNeeded(head: nat, col: nat, nfree: nat, nenter: nat, ileave: nat, wrk: bool, updatd: bool, iupdat: nat,
                        ghost before: seq<Pair>, ghost ps: seq<Pair>, ghost f0: set<int>, ghost f: set<int>)
      returns (formed: bool)
      requires Shapes() && |ps| == col <= m && |before| <= m && Sized(before, n) && Sized(ps, n)
      requires col > 0 ==>
        && Ring(head, col, ps) && FreeLists(nfree, f) && ChangeLists(nenter, ileave, f - f0, f0 - f)
        && Follows(before, ps, updatd, updatd && iupdat > m) && (iupdat > m ==> col == m)
        && f <= All(n) && f0 <= All(n)
      modifies wn1
      ensures formed <==> nfree != 0 && col != 0 && wrk
      ensures formed ==> forall k: nat {:trigger RightBeyond(ps, f, k)} ::
        RightBeyond(ps, f, k) <==> old(RightBeyond(before, f0, k + if updatd && iupdat > m then 1 else 0))
      ensures !formed ==> unchanged(wn1)
    {
      hide *;
      formed := false;
      if nfree == 0 || col == 0 {
        return;
      }
      if wrk {
        Formk(head, col, nfree, nenter, ileave, updatd, iupdat, before, ps, f0, f);
        formed := true;
      }
    }

    lemma RingHead(head: nat, col: nat, ps: seq<Pair>)
      requires Ring(head, col, ps)
      ensures 1 <= head <= m
    {
    }
  }

  lemma NewSlot(head: nat, col: nat, m: nat)
    requires 1 <= head <= m && 1 <= col <= m
    ensures Slot(head, col - 1, m) == if head + col - 1 > m then head + col - 1 - m else head + col - 1
    ensures 1 <= Slot(head, col - 1, m) <= m
  {
  }
}
