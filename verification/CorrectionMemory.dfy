/** The limited memory of correction pairs: a ring of columns and the cached products of the pairs. */
module CorrectionMemory {
  import opened Vectors
  import opened Blas

  /** A step and the change of the gradient along it. */
  datatype Pair = Pair(s: Vector, y: Vector)

  ghost predicate Sized(ps: seq<Pair>, n: nat) {
    forall i :: 0 <= i < |ps| ==> |ps[i].s| == |ps[i].y| == n
  }

  /** The column reached from column head by q steps p := p % m + 1. */
  function Slot(head: nat, q: nat, m: nat): nat {
    if head + q <= m then head + q else head + q - m
  }

  lemma SlotStep(head: nat, q: nat, m: nat)
    requires 1 <= head <= m && q < m
    ensures 1 <= Slot(head, q, m) <= m
    ensures Slot(head, 0, m) == head
    ensures q + 1 <= m ==> Slot(head, q, m) % m + 1 == if q + 1 < m then Slot(head, q + 1, m) else head
    ensures Slot(head % m + 1, q, m) == if q + 1 < m then Slot(head, q + 1, m) else head
  {
    RingStep(head, m);
    RingStep(Slot(head, q, m), m);
  }

  /** The pointers go round the ring. */
  function NextSlot(p: nat, m: nat): nat
    requires m > 0
  {
    p % m + 1
  }

  lemma SlotFollows(head: nat, q: nat, m: nat)
    requires 1 <= head <= m && q < m
    ensures 1 <= Slot(head, q, m) <= m
    ensures q + 1 < m ==> NextSlot(Slot(head, q, m), m) == Slot(head, q + 1, m)
  {
    SlotStep(head, q, m);
  }

  lemma RingStep(p: nat, m: nat)
    requires 1 <= p <= m
    ensures p % m + 1 == if p == m then 1 else p + 1
  {
    if p < m {
      assert p % m == p;
    }
  }

  lemma SlotInjective(head: nat, q: nat, r: nat, m: nat)
    requires 1 <= head <= m && q < m && r < m && q != r
    ensures Slot(head, q, m) != Slot(head, r, m)
  {
  }

  /** Inner products of the pairs: steps with steps in ss (upper), steps with gradients in sy (lower). */
  ghost predicate Products(ss: array2<real>, sy: array2<real>, ps: seq<Pair>, n: nat)
    reads ss, sy
  {
    && |ps| < ss.Length0 && |ps| < ss.Length1 && |ps| < sy.Length0 && |ps| < sy.Length1
    && (forall i :: 0 <= i < |ps| ==> |ps[i].s| == |ps[i].y| == n)
    && (forall i, j {:trigger ss[i, j]} :: 1 <= i <= j <= |ps| ==> ss[i, j] == Dot(ps[i - 1].s, ps[j - 1].s))
    && (forall i, j {:trigger sy[i, j]} :: 1 <= j <= i <= |ps| ==> sy[i, j] == Dot(ps[i - 1].s, ps[j - 1].y))
  }

  /** Drops the first row and column of the cached products. */
  method ShiftProducts(ss: array2<real>, sy: array2<real>, ghost ps: seq<Pair>, col: nat, n: nat)
    requires ss != sy && col == |ps| >= 1 && Products(ss, sy, ps, n)
    modifies ss, sy
    ensures Products(ss, sy, ps[1..], n)
  {
    var j := 1;
    while j <= col - 1
      invariant 1 <= j <= col
      invariant forall i, c :: 1 <= i <= c < j ==> ss[i, c] == old(ss[i + 1, c + 1])
      invariant forall i, c :: 1 <= c <= i < col && c < j ==> sy[i, c] == old(sy[i + 1, c + 1])
      invariant forall i, c :: 0 <= i < ss.Length0 && j <= c < ss.Length1 ==> ss[i, c] == old(ss[i, c])
      invariant forall i, c :: 0 <= i < sy.Length0 && j <= c < sy.Length1 ==> sy[i, c] == old(sy[i, c])
    {
      Dcopy(ss, j, 2, j + 1, 1, j);
      Dcopy(sy, col - j, j + 1, j + 1, j, j);
      j := j + 1;
    }
  }

  /** The columns of ws and wy, from column head on, hold the pairs in order. */
  ghost predicate Stored(ws: array2<real>, wy: array2<real>, head: nat, m: nat, ps: seq<Pair>)
    reads ws, wy
  {
    && 1 <= head <= m && |ps| <= m && ws.Length0 == wy.Length0 >= 1 && ws.Length1 == wy.Length1 == m + 1
    && forall q :: 0 <= q < |ps| ==> StoredAt(ws, wy, Slot(head, q, m), ps[q])
  }

  ghost predicate StoredAt(ws: array2<real>, wy: array2<real>, p: nat, pair: Pair)
    requires ws.Length0 >= 1 && wy.Length0 >= 1 && p < ws.Length1 && p < wy.Length1
    reads ws, wy
  {
    Column(ws, p) == pair.s && Column(wy, p) == pair.y
  }

  /** Puts a pair into the column after the last one. */
  method StorePair(ws: array2<real>, wy: array2<real>, d: array<real>, r: array<real>, itail: nat, ghost head: nat,
                   ghost m: nat, ghost ps: seq<Pair>)
    requires ws != wy && Stored(ws, wy, head, m, ps) && |ps| < m && itail == Slot(head, |ps|, m)
    requires d.Length == r.Length == ws.Length0
    modifies ws, wy
    ensures Stored(ws, wy, head, m, ps + [Pair(Vec(d), Vec(r))])
  {
    SlotStep(head, |ps|, m);
    CopyToColumn(d, ws, itail);
    CopyToColumn(r, wy, itail);
    forall q | 0 <= q < |ps| ensures StoredAt(ws, wy, Slot(head, q, m), ps[q]) {
      SlotInjective(head, q, |ps|, m);
      assert old(StoredAt(ws, wy, Slot(head, q, m), ps[q]));
    }
  }

  /** Adds the products of the new pair with the older ones: the last row of sy and the last column of ss. */
  method AddProducts(ss: array2<real>, sy: array2<real>, ws: array2<real>, wy: array2<real>, d: array<real>, head: nat,
                     m: nat, col: nat, ghost ps: seq<Pair>, ghost last: Pair)
    requires ss != sy && ss != ws && ss != wy && sy != ws && sy != wy
    requires 1 <= col <= m && ss.Length0 == ss.Length1 == sy.Length0 == sy.Length1 == m + 1
    requires Stored(ws, wy, head, m, ps + [last]) && |ps| == col - 1
    requires d.Length == ws.Length0 && Vec(d) == last.s && |last.y| == |last.s|
    requires Products(ss, sy, ps, d.Length - 1)
    modifies ss, sy
    ensures Products(ss, sy, ps, d.Length - 1)
    ensures forall j :: 1 <= j < col ==>
      sy[col, j] == Dot(last.s, ps[j - 1].y) && ss[j, col] == Dot(ps[j - 1].s, last.s)
  {
    hide Dot, Slot;
    var pointr := head;
    var j := 1;
    SlotStep(head, 0, m);
    while j <= col - 1
      invariant 1 <= j <= col && pointr == Slot(head, j - 1, m)
      invariant Products(ss, sy, ps, d.Length - 1)
      invariant forall i :: 1 <= i < j ==>
        sy[col, i] == Dot(last.s, ps[i - 1].y) && ss[i, col] == Dot(ps[i - 1].s, last.s)
    {
      SlotStep(head, j - 1, m);
      assert StoredAt(ws, wy, Slot(head, j - 1, m), (ps + [last])[j - 1]);
      sy[col, j] := DdotColumn(d, wy, pointr);
      ss[j, col] := DdotColumn(d, ws, pointr);
      DotScale(1.0, last.s, ps[j - 1].s);
      pointr := NextSlot(pointr, m);
      j := j + 1;
    }
  }

  /** Completes the products of the pairs including last. */
  method SetDiagonal(ss: array2<real>, sy: array2<real>, col: nat, v: real, w: real, ghost ps: seq<Pair>,
                     ghost last: Pair, ghost n: nat)
    requires ss != sy && Products(ss, sy, ps, n) && col == |ps| + 1
    requires col < ss.Length0 && col < ss.Length1 && col < sy.Length0 && col < sy.Length1
    requires |last.s| == |last.y| == n && v == Dot(last.s, last.s) && w == Dot(last.s, last.y)
    requires forall j :: 1 <= j < col ==>
      sy[col, j] == Dot(last.s, ps[j - 1].y) && ss[j, col] == Dot(ps[j - 1].s, last.s)
    modifies ss, sy
    ensures Products(ss, sy, ps + [last], n)
  {
    hide Dot;
    ss[col, col] := v;
    sy[col, col] := w;
  }

  /** The products of the scaled step, from those of the unscaled one. */
  lemma StepProducts(g: Vector, r: Vector, d: Vector, stp: real, gd: real, gdold: real, dtd: real)
    requires |g| == |r| == |d| && gd == Dot(g, d) && gdold == Dot(r, d) && dtd == Dot(d, d)
    ensures Dot(Scaled(stp, d), Minus(g, r)) == (gd - gdold) * stp
    ensures Dot(Scaled(stp, d), Scaled(stp, d)) == stp * stp * dtd
    ensures Dot(r, Scaled(stp, d)) == gdold * stp
    ensures stp == 1.0 ==> Scaled(stp, d) == d
  {
    hide Dot;
    var sd := Scaled(stp, d);
    DotScale(stp, d, Minus(g, r));
    DotMinus(d, g, r);
    DotScale(1.0, g, d);
    DotScale(1.0, r, d);
    DotScale(stp, r, d);
    assert Dot(sd, sd) == stp * Dot(d, sd) by { DotScale(stp, d, sd); }
    DotScale(stp, d, d);
    Associate(stp, dtd, gd - gdold, gdold);
  }

  lemma Associate(a: real, b: real, c: real, d: real)
    ensures a * (a * b) == a * a * b && a * c == c * a && a * d == d * a
  {
  }

  lemma ThresholdNotNegative(eps: real, x: real, y: real, z: real)
    requires eps >= 0.0 && y > 0.0 && z > 0.0 && x == y * z
    ensures eps * x >= 0.0
  {
  }

  /** r := g - r. */
  method Difference(g: array<real>, r: array<real>)
    requires g != r && g.Length == r.Length >= 1
    modifies r
    ensures Vec(r) == Minus(Vec(g), old(Vec(r)))
  {
    ghost var r0 := Vec(r);
    var i := 1;
    while i < r.Length
      invariant 1 <= i <= r.Length
      invariant forall k :: 1 <= k < i ==> r[k] == Minus(Vec(g), r0)[k - 1]
      invariant forall k :: i <= k < r.Length ==> r[k] == r0[k - 1]
    {
      r[i] := g[i] - r[i];
      i := i + 1;
    }
    assert Vec(r) == Minus(Vec(g), r0);
  }

  /** Turns the search direction into the step and derives the products with it. */
  method ScaleStep(d: array<real>, gd: real, gdold: real, stp: real) returns (dr: real, ddum: real)
    requires d.Length >= 1
    modifies d
    ensures Vec(d) == Scaled(stp, old(Vec(d)))
    ensures dr == (gd - gdold) * stp && ddum == -gdold * stp
  {
    ghost var d0 := Vec(d);
    if stp == 1.0 {
      dr := gd - gdold;
      ddum := -gdold;
      assert Vec(d) == Scaled(stp, d0);
    } else {
      dr := (gd - gdold) * stp;
      Dscal(stp, d);
      ddum := -gdold * stp;
    }
  }

  ghost predicate IsSuffix(k: seq<Pair>, ps: seq<Pair>) {
    |k| <= |ps| && forall i :: 0 <= i < |k| ==> k[i] == ps[|ps| - |k| + i]
  }

  /** theta = y'y / s'y of the latest pair. */
  ghost function Curvature(ps: seq<Pair>): real {
    if ps == [] then 1.0 else
      var p := ps[|ps| - 1];
      if |p.s| != |p.y| || Dot(p.s, p.y) == 0.0 then 0.0 else Dot(p.y, p.y) / Dot(p.s, p.y)
  }

  lemma SuffixExtends(k: seq<Pair>, ps: seq<Pair>, last: Pair)
    requires IsSuffix(k, ps)
    ensures IsSuffix(k + [last], ps + [last])
  {
  }

  lemma CurvatureOfLast(ps: seq<Pair>, last: Pair)
    requires |last.s| == |last.y| && Dot(last.s, last.y) != 0.0
    ensures Curvature(ps + [last]) == Dot(last.y, last.y) / Dot(last.s, last.y)
  {
  }

  class Memory {
    const n: nat
    const m: nat
    const ws: array2<real>
    const wy: array2<real>
    const ss: array2<real>
    const sy: array2<real>
    var col: nat
    var head: nat
    var itail: nat
    var iupdat: nat
    var theta: real
    var updatd: bool
    /** The accepted pairs since the last reset. */
    ghost var pairs: seq<Pair>
    /** Those still in the ring. */
    ghost var kept: seq<Pair>

    ghost predicate Shapes() {
      && m >= 1
      && ws.Length0 == wy.Length0 == n + 1 && ws.Length1 == wy.Length1 == m + 1
      && ss.Length0 == ss.Length1 == sy.Length0 == sy.Length1 == m + 1
      && ws != wy && ss != sy && ss != ws && ss != wy && sy != ws && sy != wy
    }

    /** The ring holds the kept pairs. */
    ghost predicate Holds()
      reads `kept, `head, ws, wy, ss, sy
    {
      Shapes() && Stored(ws, wy, head, m, kept) && Products(ss, sy, kept, n)
    }

    ghost predicate Valid()
      reads `pairs, `kept, `col, `head, `itail, `iupdat, `theta, ws, wy, ss, sy
    {
      && Shapes() && iupdat == |pairs|
      && col == |kept| == (if iupdat < m then iupdat else m) && IsSuffix(kept, pairs)
      && 1 <= head <= m && (iupdat <= m ==> head == 1)
      && (iupdat > 0 ==> itail == Slot(head, col - 1, m))
      && Holds()
      && theta == Curvature(pairs)
    }

    constructor (n: nat, m: nat)
      requires m >= 1
      ensures Valid() && pairs == [] && !updatd && this.n == n && this.m == m
      ensures fresh(ws) && fresh(wy) && fresh(ss) && fresh(sy)
    {
      this.n := n;
      this.m := m;
      ws := new real[n + 1, m + 1];
      wy := new real[n + 1, m + 1];
      ss := new real[m + 1, m + 1];
      sy := new real[m + 1, m + 1];
      col := 0;
      head := 1;
      itail := 0;
      iupdat := 0;
      theta := 1.0;
      updatd := false;
      pairs := [];
      kept := [];
    }

    /** Forgets all pairs. */
    method Reset()
      requires Valid()
      modifies `col, `head, `theta, `iupdat, `updatd, `pairs, `kept
      ensures Valid() && pairs == [] && col == 0 && !updatd
    {
      hide Stored, Products, Slot;
      NothingHeld(ws, wy, ss, sy, n, m);
      col := 0;
      head := 1;
      theta := 1.0;
      iupdat := 0;
      updatd := false;
      pairs := [];
      kept := [];
    }

    /** Moves the pointers: the ring has a free column itail behind the pairs that stay. */
    method SetPointers()
      requires Shapes() && Stored(ws, wy, head, m, kept)
      requires iupdat == |pairs| + 1 && 1 <= head <= m && IsSuffix(kept, pairs)
      requires col == |kept| == (if |pairs| < m then |pairs| else m) && (|pairs| <= m ==> head == 1)
      requires |pairs| > 0 ==> itail == Slot(head, col - 1, m)
      modifies `col, `head, `itail, `kept
      ensures 1 <= head <= m && (iupdat <= m ==> head == 1)
      ensures col == (if iupdat < m then iupdat else m) && itail == Slot(head, col - 1, m)
      ensures |kept| == col - 1 && IsSuffix(kept, pairs) && Stored(ws, wy, head, m, kept)
      ensures kept == if iupdat <= m then old(kept) else old(kept)[1..]
    {
      hide Stored, Products, Slot;
      if iupdat <= m {
        FirstFree(iupdat, m);
        col := iupdat;
        itail := (head + iupdat - 2) % m + 1;
      } else {
        RotateStored(ws, wy, head, m, kept);
        SlotStep(head, m - 1, m);
        SlotStep(head, 0, m);
        itail := itail % m + 1;
        head := head % m + 1;
        kept := kept[1..];
      }
    }

    /** Stores the pair (d, r) in the ring, in place of the oldest one if the ring is full. */
    method PlacePair(d: array<real>, r: array<real>)
      requires Shapes() && d.Length == r.Length == n + 1
      requires Stored(ws, wy, head, m, kept) && iupdat == |pairs| + 1 && 1 <= head <= m && IsSuffix(kept, pairs)
      requires col == |kept| == (if |pairs| < m then |pairs| else m) && (|pairs| <= m ==> head == 1)
      requires |pairs| > 0 ==> itail == Slot(head, col - 1, m)
      modifies `col, `head, `itail, `kept, ws, wy
      ensures 1 <= head <= m && (iupdat <= m ==> head == 1)
      ensures col == (if iupdat < m then iupdat else m) && itail == Slot(head, col - 1, m)
      ensures |kept| == col - 1 && IsSuffix(kept, pairs)
      ensures Stored(ws, wy, head, m, kept + [Pair(Vec(d), Vec(r))])
      ensures kept == if iupdat <= m then old(kept) else old(kept)[1..]
    {
      hide Stored, Slot, IsSuffix;
      SetPointers();
      StorePair(ws, wy, d, r, itail, head, m, kept);
    }

    /** Brings the cached products up to date after the pair (d, r) has been stored. */
    method UpdateProducts(d: array<real>, r: array<real>, dr: real, stp: real, dtd: real, ghost before: seq<Pair>)
      requires Shapes() && d.Length == r.Length == n + 1
      requires 1 <= col <= m && |kept| == col - 1 && Stored(ws, wy, head, m, kept + [Pair(Vec(d), Vec(r))])
      requires |before| <= m && Products(ss, sy, before, n) && (iupdat > m ==> |before| == m)
      requires kept == if iupdat <= m then before else before[1..]
      requires dr == Dot(Vec(d), Vec(r))
      requires Dot(Vec(d), Vec(d)) == if stp == 1.0 then dtd else stp * stp * dtd
      modifies ss, sy
      ensures Products(ss, sy, kept + [Pair(Vec(d), Vec(r))], n)
    {
      hide Stored, Products, Dot, Slot;
      ghost var last := Pair(Vec(d), Vec(r));
      if iupdat > m {
        ShiftProducts(ss, sy, before, col, n);
      }
      AddProducts(ss, sy, ws, wy, d, head, m, col, kept, last);
      SetDiagonal(ss, sy, col, if stp == 1.0 then dtd else stp * stp * dtd, dr, kept, last, n);
    }

    /** matupd for the step d and the gradient change r; the caller has counted the update in iupdat. */
    method MatUpd(d: array<real>, r: array<real>, rr: real, dr: real, stp: real, dtd: real)
      requires Shapes() && Holds() && iupdat == |pairs| + 1 && 1 <= head <= m && IsSuffix(kept, pairs)
      requires col == |kept| == (if |pairs| < m then |pairs| else m) && (|pairs| <= m ==> head == 1)
      requires |pairs| > 0 ==> itail == Slot(head, col - 1, m)
      requires d.Length == r.Length == n + 1
      requires dr == Dot(Vec(d), Vec(r)) != 0.0 && rr == Dot(Vec(r), Vec(r))
      requires Dot(Vec(d), Vec(d)) == if stp == 1.0 then dtd else stp * stp * dtd
      modifies `col, `head, `itail, `theta, `pairs, `kept, ws, wy, ss, sy
      ensures Valid() && pairs == old(pairs) + [Pair(Vec(d), Vec(r))]
    {
      hide Stored, Products, Dot, Slot, IsSuffix, Curvature;
      ghost var before, last := kept, Pair(Vec(d), Vec(r));
      PlacePair(d, r);
      theta := rr / dr;
      UpdateProducts(d, r, dr, stp, dtd, before);
      Remember(last);
    }

    ghost method Remember(last: Pair)
      requires IsSuffix(kept, pairs) && |last.s| == |last.y| && Dot(last.s, last.y) != 0.0
      modifies `pairs, `kept
      ensures pairs == old(pairs) + [last] && kept == old(kept) + [last] && IsSuffix(kept, pairs)
      ensures Curvature(pairs) == Dot(last.y, last.y) / Dot(last.s, last.y)
    {
      hide IsSuffix, Curvature, Dot;
      SuffixExtends(kept, pairs, last);
      CurvatureOfLast(pairs, last);
      pairs := pairs + [last];
      kept := kept + [last];
    }

    /**
     * The end of an iteration. r holds the previous gradient and d the search direction; with
     * gd, gdold and dtd the line search leaves the products of d with both gradients and itself.
     */
    method EndIteration(g: array<real>, r: array<real>, d: array<real>, gd: real, gdold: real, stp: real, dtd: real,
                        epsmch: real)
      requires Valid() && g.Length == r.Length == d.Length == n + 1 && g != r && g != d && r != d
      requires gd == Dot(Vec(g), Vec(d)) && gdold == Dot(Vec(r), Vec(d)) && dtd == Dot(Vec(d), Vec(d))
      requires gdold < 0.0 && stp > 0.0 && epsmch >= 0.0
      modifies `col, `head, `itail, `iupdat, `theta, `updatd, `pairs, `kept, ws, wy, ss, sy, r, d
      ensures Valid() && Vec(r) == Minus(Vec(g), old(Vec(r))) && Vec(d) == Scaled(stp, old(Vec(d)))
      ensures updatd <==> Dot(Vec(d), Vec(r)) > epsmch * -Dot(old(Vec(r)), Vec(d))
      ensures pairs == old(pairs) + if updatd then [Pair(Vec(d), Vec(r))] else []
      ensures updatd ==> Dot(Vec(d), Vec(r)) > 0.0
    {
      hide Stored, Products, Dot, Slot;
      ghost var d0, r0 := Vec(d), Vec(r);
      StepProducts(Vec(g), r0, d0, stp, gd, gdold, dtd);
      Difference(g, r);
      var rr := Ddot(r, r, 1);
      var dr, ddum := ScaleStep(d, gd, gdold, stp);
      ThresholdNotNegative(epsmch, ddum, -gdold, stp);
      if dr <= epsmch * ddum {
        updatd := false;
      } else {
        updatd := true;
        iupdat := iupdat + 1;
        MatUpd(d, r, rr, dr, stp, dtd);
      }
    }
  }

  lemma NothingHeld(ws: array2<real>, wy: array2<real>, ss: array2<real>, sy: array2<real>, n: nat, m: nat)
    requires m >= 1 && ws.Length0 == wy.Length0 == n + 1 && ws.Length1 == wy.Length1 == m + 1
    requires ss.Length0 == ss.Length1 == sy.Length0 == sy.Length1 == m + 1
    ensures Stored(ws, wy, 1, m, []) && Products(ss, sy, [], n)
  {
  }

  lemma FirstFree(iupdat: nat, m: nat)
    requires 1 <= iupdat <= m
    ensures (iupdat - 1) % m + 1 == Slot(1, iupdat - 1, m) == iupdat
  {
  }

  lemma RotateStored(ws: array2<real>, wy: array2<real>, head: nat, m: nat, ps: seq<Pair>)
    requires Stored(ws, wy, head, m, ps) && |ps| == m
    ensures Stored(ws, wy, head % m + 1, m, ps[1..])
  {
    SlotStep(head, 0, m);
    forall q | 0 <= q < |ps| - 1 ensures StoredAt(ws, wy, Slot(head % m + 1, q, m), ps[1..][q]) {
      SlotStep(head, q, m);
      assert StoredAt(ws, wy, Slot(head, q + 1, m), ps[q + 1]);
    }
  }
}
