/** The walk of rcont2 over the values of one cell, and the value it picks. */
module CellWalk {
  import opened Naturals
  import opened Hypergeometric

  /** The value the walk starts at: the expected value, rounded. */
  function Start(m: Margin): int
    requires m.Valid() && m.ie > 0
  {
    (m.ia as real * (m.id as real / m.ie as real) + 0.5).Floor
  }

  lemma StartFeasible(m: Margin)
    requires m.Valid() && m.ie > 0
    ensures m.Feasible(Start(m))
  {
    var x := Share(m.ia as real, m.id as real, m.ie as real);
    RoundWithin(x, m.Lo(), m.Hi());
  }

  /** The expected value lies between the bounds of the cell. */
  lemma Share(a: real, d: real, e: real) returns (x: real)
    requires e > 0.0 && 0.0 <= a <= e && 0.0 <= d <= e
    ensures x == a * (d / e) && 0.0 <= x <= a && x <= d && x >= a + d - e
  {
    var r := Ratio(d, e);
    x := a * r;
    ScaleDown(a, r);
    ShareBound(a, r, d, e);
    ShareLow(a, r, d, e);
  }

  lemma RoundWithin(x: real, lo: int, hi: int)
    requires lo as real <= x <= hi as real
    ensures lo <= (x + 0.5).Floor <= hi
  {
  }

  lemma Ratio(d: real, e: real) returns (r: real)
    requires e > 0.0 && 0.0 <= d <= e
    ensures r == d / e && r * e == d && 0.0 <= r <= 1.0
  {
    r := d / e;
    RatioBounds(r, d, e);
  }

  lemma RatioBounds(r: real, d: real, e: real)
    requires e > 0.0 && r * e == d && 0.0 <= d <= e
    ensures 0.0 <= r <= 1.0
  {
    if r < 0.0 {
      PositiveProduct(-r, e);
    } else if r > 1.0 {
      PositiveProduct(r - 1.0, e);
    }
  }

  lemma PositiveProduct(x: real, y: real)
    requires x > 0.0 && y > 0.0
    ensures x * y > 0.0
  {
  }

  lemma ScaleDown(a: real, r: real)
    requires a >= 0.0 && 0.0 <= r <= 1.0
    ensures 0.0 <= a * r <= a
  {
  }

  lemma ShareBound(a: real, r: real, d: real, e: real)
    requires 0.0 <= a <= e && r >= 0.0 && r * e == d
    ensures a * r <= d
  {
    assert (e - a) * r >= 0.0;
  }

  lemma ShareLow(a: real, r: real, d: real, e: real)
    requires 0.0 <= a <= e && r <= 1.0 && r * e == d
    ensures a * r >= a + d - e
  {
    assert (e - a) * (1.0 - r) >= 0.0;
  }

  /**
   * The values still to be visited once lo..hi have been: upwards and downwards in turn,
   * then along whichever side is left. up says that an upward step is due.
   */
  function Order(m: Margin, lo: nat, hi: nat, up: bool): (s: seq<nat>)
    requires m.Valid() && m.Lo() <= lo <= hi <= m.Hi()
    ensures forall i :: 0 <= i < |s| ==> m.Feasible(s[i])
    decreases m.Hi() - hi + lo
  {
    if lo == m.Lo() && hi == m.Hi() then []
    else if lo == m.Lo() || (up && hi < m.Hi()) then [hi + 1] + Order(m, lo, hi + 1, false)
    else [lo - 1] + Order(m, lo - 1, hi, true)
  }

  /** All values in the order in which one full sweep visits them. */
  function Visits(m: Margin): (s: seq<nat>)
    requires m.Valid() && m.ie > 0
    ensures forall i :: 0 <= i < |s| ==> m.Feasible(s[i])
  {
    StartFeasible(m);
    [Start(m)] + Order(m, Start(m), Start(m), true)
  }

  /** Total weight of a list of values. */
  function Mass(m: Margin, s: seq<nat>): real
    requires m.Valid() && forall i :: 0 <= i < |s| ==> m.Feasible(s[i])
  {
    if s == [] then 0.0 else Weight(m, s[0]) + Mass(m, s[1..])
  }

  /** The first value of s at which the running total of weights reaches the draw. */
  function PickFrom(m: Margin, s: seq<nat>, dummy: real): nat
    requires m.Valid() && forall i :: 0 <= i < |s| ==> m.Feasible(s[i])
  {
    if s == [] then 0
    else if Weight(m, s[0]) >= dummy then s[0]
    else PickFrom(m, s[1..], dummy - Weight(m, s[0]))
  }

  function Pick(m: Margin, dummy: real): nat
    requires m.Valid() && m.ie > 0
  {
    PickFrom(m, Visits(m), dummy)
  }

  // ----- one sweep visits every feasible value exactly once -----

  lemma {:induction false} OrderVisitsOnce(m: Margin, lo: nat, hi: nat, up: bool)
    requires m.Valid() && m.Lo() <= lo <= hi <= m.Hi()
    ensures forall k :: k in Order(m, lo, hi, up) <==> m.Feasible(k) && !(lo <= k <= hi)
    ensures forall i, j :: 0 <= i < j < |Order(m, lo, hi, up)| ==> Order(m, lo, hi, up)[i] != Order(m, lo, hi, up)[j]
    decreases m.Hi() - hi + lo
  {
    hide Weight;
    if lo == m.Lo() && hi == m.Hi() {
    } else if lo == m.Lo() || (up && hi < m.Hi()) {
      OrderVisitsOnce(m, lo, hi + 1, false);
      ConsDistinct(hi + 1, Order(m, lo, hi + 1, false));
    } else {
      OrderVisitsOnce(m, lo - 1, hi, true);
      ConsDistinct(lo - 1, Order(m, lo - 1, hi, true));
    }
  }

  lemma ConsDistinct(x: nat, s: seq<nat>)
    requires x !in s && forall i, j :: 0 <= i < j < |s| ==> s[i] != s[j]
    ensures forall k :: k in [x] + s <==> k == x || k in s
    ensures forall i, j :: 0 <= i < j < |[x] + s| ==> ([x] + s)[i] != ([x] + s)[j]
  {
  }

  lemma VisitsEveryValueOnce(m: Margin)
    requires m.Valid() && m.ie > 0
    ensures forall k :: k in Visits(m) <==> m.Feasible(k)
    ensures forall i, j :: 0 <= i < j < |Visits(m)| ==> Visits(m)[i] != Visits(m)[j]
  {
    StartFeasible(m);
    var k := Start(m);
    OrderVisitsOnce(m, k, k, true);
    ConsDistinct(k, Order(m, k, k, true));
  }

  // ----- in which order -----

  /** x comes before y: it is nearer to the start, or as near and above. */
  predicate Nearer(start: int, x: int, y: int) {
    var dx, dy := if x < start then start - x else x - start, if y < start then start - y else y - start;
    dx < dy || (dx == dy && x > y)
  }

  /** As many values have been visited below the start as above, or one more above, or one side is used up. */
  ghost predicate InTurn(m: Margin, start: int, lo: int, hi: int, up: bool)
    requires m.Valid()
  {
    && lo <= start <= hi
    && (hi - start == (start - lo) + (if up then 0 else 1)
      || (lo == m.Lo() && start - lo <= hi - start) || (up && hi == m.Hi() && hi - start <= start - lo))
  }

  ghost predicate NearestFirst(start: int, s: seq<nat>) {
    forall i, j :: 0 <= i < j < |s| ==> Nearer(start, s[i], s[j])
  }

  lemma ConsInOrder(start: int, x: nat, s: seq<nat>)
    requires NearestFirst(start, s) && forall j :: 0 <= j < |s| ==> Nearer(start, x, s[j])
    ensures NearestFirst(start, [x] + s)
  {
  }

  lemma {:induction false} OrderNearestFirst(m: Margin, start: int, lo: nat, hi: nat, up: bool)
    requires m.Valid() && m.Lo() <= lo <= hi <= m.Hi() && InTurn(m, start, lo, hi, up)
    ensures NearestFirst(start, Order(m, lo, hi, up))
    decreases m.Hi() - hi + lo
  {
    hide Weight;
    if lo == m.Lo() && hi == m.Hi() {
    } else {
      var upwards := lo == m.Lo() || (up && hi < m.Hi());
      var x := if upwards then hi + 1 else lo - 1;
      var rest := if upwards then Order(m, lo, hi + 1, false) else Order(m, lo - 1, hi, true);
      if upwards {
        OrderVisitsOnce(m, lo, hi + 1, false);
        OrderNearestFirst(m, start, lo, hi + 1, false);
      } else {
        OrderVisitsOnce(m, lo - 1, hi, true);
        OrderNearestFirst(m, start, lo - 1, hi, true);
      }
      forall j | 0 <= j < |rest| ensures Nearer(start, x, rest[j]) {
        assert rest[j] in rest;
      }
      ConsInOrder(start, x, rest);
    }
  }

  /** The sweep goes from near to far, and of two values equally near it visits the upper one first. */
  lemma VisitsNearestFirst(m: Margin)
    requires m.Valid() && m.ie > 0
    ensures NearestFirst(Start(m), Visits(m))
  {
    StartFeasible(m);
    var k := Start(m);
    OrderVisitsOnce(m, k, k, true);
    OrderNearestFirst(m, k, k, k, true);
    var s := Order(m, k, k, true);
    forall j | 0 <= j < |s| ensures Nearer(k, k, s[j]) {
      assert s[j] in s;
    }
    ConsInOrder(k, k, s);
  }

  lemma {:induction false} OrderMass(m: Margin, lo: nat, hi: nat, up: bool)
    requires m.Valid() && m.Lo() <= lo <= hi <= m.Hi()
    ensures Sum(m, lo, hi) + Mass(m, Order(m, lo, hi, up)) == 1.0
    decreases m.Hi() - hi + lo
  {
    hide Weight;
    var s := Order(m, lo, hi, up);
    if lo == m.Lo() && hi == m.Hi() {
      WeightsSumToOne(m);
    } else if lo == m.Lo() || (up && hi < m.Hi()) {
      OrderMass(m, lo, hi + 1, false);
      assert s[1..] == Order(m, lo, hi + 1, false);
    } else {
      OrderMass(m, lo - 1, hi, true);
      SumFromBelow(m, lo - 1, hi);
      assert s[1..] == Order(m, lo - 1, hi, true);
    }
  }

  lemma VisitsMass(m: Margin)
    requires m.Valid() && m.ie > 0
    ensures Mass(m, Visits(m)) == 1.0
  {
    hide Weight;
    StartFeasible(m);
    var k := Start(m);
    OrderMass(m, k, k, true);
    assert Sum(m, k, k - 1) == 0.0;
    assert Visits(m)[1..] == Order(m, k, k, true);
  }

  // ----- which draws pick which value -----

  /** Weight visited before the value k. */
  function MassBefore(m: Margin, s: seq<nat>, k: nat): real
    requires m.Valid() && forall i :: 0 <= i < |s| ==> m.Feasible(s[i])
  {
    if s == [] || s[0] == k then 0.0 else Weight(m, s[0]) + MassBefore(m, s[1..], k)
  }

  lemma {:induction false} PickFromInterval(m: Margin, s: seq<nat>, dummy: real, k: nat)
    requires m.Valid() && forall i :: 0 <= i < |s| ==> m.Feasible(s[i])
    requires forall i, j :: 0 <= i < j < |s| ==> s[i] != s[j]
    requires k in s && 0.0 < dummy <= Mass(m, s)
    ensures PickFrom(m, s, dummy) == k <==>
      MassBefore(m, s, k) < dummy <= MassBefore(m, s, k) + Weight(m, k)
    ensures PickFrom(m, s, dummy) in s
    ensures MassBefore(m, s, k) >= 0.0
  {
    hide Weight;
    if s[0] == k {
      if Weight(m, s[0]) < dummy {
        PickInTail(m, s, dummy);
        assert k !in s[1..];
      }
    } else if Weight(m, s[0]) >= dummy {
      BeforeNonnegative(m, s[1..], k);
    } else {
      PickFromInterval(m, s[1..], dummy - Weight(m, s[0]), k);
    }
  }

  lemma {:induction false} PickInTail(m: Margin, s: seq<nat>, dummy: real)
    requires m.Valid() && forall i :: 0 <= i < |s| ==> m.Feasible(s[i])
    requires s != [] && Weight(m, s[0]) < dummy <= Mass(m, s)
    ensures PickFrom(m, s, dummy) in s[1..]
    decreases |s|
  {
    hide Weight;
    var d := dummy - Weight(m, s[0]);
    assert s[1..] != [];
    if Weight(m, s[1]) < d {
      PickInTail(m, s[1..], d);
    }
  }

  lemma {:induction false} BeforeNonnegative(m: Margin, s: seq<nat>, k: nat)
    requires m.Valid() && forall i :: 0 <= i < |s| ==> m.Feasible(s[i])
    ensures MassBefore(m, s, k) >= 0.0
  {
    hide Weight;
    if s != [] && s[0] != k {
      BeforeNonnegative(m, s[1..], k);
    }
  }

  /** The interval of a value ends within the whole. */
  lemma {:induction false} IntervalWithinMass(m: Margin, s: seq<nat>, k: nat)
    requires m.Valid() && (forall i :: 0 <= i < |s| ==> m.Feasible(s[i])) && k in s
    ensures MassBefore(m, s, k) + Weight(m, k) <= Mass(m, s)
  {
    hide Weight;
    if s[0] == k {
      MassNotNegative(m, s[1..]);
    } else {
      IntervalWithinMass(m, s[1..], k);
    }
  }

  lemma {:induction false} MassNotNegative(m: Margin, s: seq<nat>)
    requires m.Valid() && forall i :: 0 <= i < |s| ==> m.Feasible(s[i])
    ensures Mass(m, s) >= 0.0
  {
    hide Weight;
    if s != [] {
      MassNotNegative(m, s[1..]);
    }
  }

  /**
   * The walk inverts the cumulative distribution: the draws in (0, 1] that pick k form a
   * half-open interval as long as the weight of k.
   */
  lemma PickInterval(m: Margin, dummy: real, k: nat)
    requires m.Valid() && m.ie > 0 && 0.0 < dummy <= 1.0 && m.Feasible(k)
    ensures Pick(m, dummy) == k <==>
      MassBefore(m, Visits(m), k) < dummy <= MassBefore(m, Visits(m), k) + Weight(m, k)
    ensures m.Feasible(Pick(m, dummy))
    ensures 0.0 <= MassBefore(m, Visits(m), k) && MassBefore(m, Visits(m), k) + Weight(m, k) <= 1.0
  {
    hide Weight, Visits;
    VisitsEveryValueOnce(m);
    VisitsMass(m);
    PickFromInterval(m, Visits(m), dummy, k);
    IntervalWithinMass(m, Visits(m), k);
  }
}
