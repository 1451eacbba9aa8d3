/** rcont2: a random two-way table with given marginal totals. */
module Rcont2 {
  import opened Naturals
  import opened Hypergeometric
  import opened CellWalk
  import opened ContingencyTable

  /** The visited interval nll..nlm and what is still to come after it. */
  ghost predicate Walking(m: Margin, dummy: real, nll: int, nlm: int, up: bool, x: real, y: real, sumprb: real) {
    && m.Valid() && m.ie > 0
    && m.Lo() <= nll <= nlm <= m.Hi()
    && x == Weight(m, nlm) && y == Weight(m, nll)
    && sumprb == Sum(m, nll, nlm) < dummy
    && Pick(m, dummy) == PickFrom(m, Order(m, nll, nlm, up), dummy - sumprb)
  }

  /** The weight of the next value up, from the current one. */
  method RatioUp(m: Margin, nlm: int, x: real) returns (x': real)
    requires m.Valid() && m.Feasible(nlm) && nlm < m.Hi() && x == Weight(m, nlm)
    ensures x' == Weight(m, nlm + 1)
  {
    hide Weight;
    WeightUp(m, nlm);
    var j := (m.id - nlm) as real * (m.ia - nlm) as real;
    x' := x * j / ((nlm + 1) as real * (m.Offset() + nlm + 1) as real);
  }

  /** The weight of the next value down, from the current one. */
  method RatioDown(m: Margin, nll: int, y: real) returns (y': real)
    requires m.Valid() && m.Feasible(nll) && nll > m.Lo() && y == Weight(m, nll)
    ensures y' == Weight(m, nll - 1)
  {
    hide Weight;
    ghost var k := nll - 1;
    WeightDown(m, k);
    var j := nll as real * (m.Offset() + nll) as real;
    y' := y * j / ((m.id - (nll - 1)) as real * (m.ia - (nll - 1)) as real);
  }

  lemma VisitUp(m: Margin, dummy: real, nll: int, nlm: int, x: real, y: real, sumprb: real)
    requires Walking(m, dummy, nll, nlm, true, x, y, sumprb) && nlm < m.Hi()
    ensures var w := Weight(m, nlm + 1);
      if sumprb + w >= dummy then nlm + 1 == Pick(m, dummy)
      else Walking(m, dummy, nll, nlm + 1, false, w, y, sumprb + w)
  {
    hide Weight;
    ghost var s := Order(m, nll, nlm, true);
    assert s[0] == nlm + 1 && s[1..] == Order(m, nll, nlm + 1, false);
    assert dummy - sumprb - Weight(m, s[0]) == dummy - (sumprb + Weight(m, nlm + 1));
  }

  lemma VisitDown(m: Margin, dummy: real, nll: int, nlm: int, up: bool, x: real, y: real, sumprb: real)
    requires Walking(m, dummy, nll, nlm, up, x, y, sumprb) && nll > m.Lo() && (up ==> nlm == m.Hi())
    ensures var w := Weight(m, nll - 1);
      if sumprb + w >= dummy then nll - 1 == Pick(m, dummy)
      else Walking(m, dummy, nll - 1, nlm, true, x, w, sumprb + w)
  {
    hide Weight;
    SumFromBelow(m, nll - 1, nlm);
    ghost var s := Order(m, nll, nlm, up);
    assert s[0] == nll - 1 && s[1..] == Order(m, nll - 1, nlm, true);
    assert dummy - sumprb - Weight(m, s[0]) == dummy - (sumprb + Weight(m, nll - 1));
  }

  lemma ZeroUp(m: Margin, k: int)
    requires m.Valid() && m.Feasible(k)
    ensures (m.id - k) * (m.ia - k) == 0 <==> k == m.Hi()
  {
    ZeroProduct(m.id - k, m.ia - k);
  }

  lemma ZeroDown(m: Margin, k: int)
    requires m.Valid() && m.Feasible(k)
    ensures k * (m.Offset() + k) == 0 <==> k == m.Lo()
  {
    ZeroProduct(k, m.Offset() + k);
  }

  lemma ZeroProduct(a: int, b: int)
    ensures a * b == 0 <==> a == 0 || b == 0
  {
  }

  lemma SweepIsComplete(m: Margin, dummy: real, x: real, y: real, sumprb: real, up: bool)
    requires m.Valid() && dummy <= 1.0
    ensures !Walking(m, dummy, m.Lo(), m.Hi(), up, x, y, sumprb)
  {
    hide Weight;
    WeightsSumToOne(m);
  }

  lemma TurnAround(m: Margin, dummy: real, nll: int, nlm: int, x: real, y: real, sumprb: real)
    requires Walking(m, dummy, nll, nlm, false, x, y, sumprb) && nll == m.Lo()
    ensures Walking(m, dummy, nll, nlm, true, x, y, sumprb)
  {
  }

  /** Walks down: once, or to the lower end when the upper end has been reached. */
  method WalkDown(m: Margin, dummy: real, nll0: int, y0: real, sumprb0: real, lsp: bool, ghost nlm: int, ghost x: real)
    returns (picked: bool, nll: int, y: real, sumprb: real)
    requires Walking(m, dummy, nll0, nlm, lsp, x, y0, sumprb0) && (lsp ==> nlm == m.Hi())
    ensures picked ==> nll == Pick(m, dummy)
    ensures !picked ==> Walking(m, dummy, nll, nlm, true, x, y, sumprb) && nll <= nll0
    ensures !picked && lsp ==> nll == m.Lo()
  {
    hide Weight;
    picked, nll, y, sumprb := false, nll0, y0, sumprb0;
    var lsm := false;
    while !lsm
      invariant Walking(m, dummy, nll, nlm, lsp, x, y, sumprb) && nll <= nll0
      invariant lsm ==> nll == m.Lo()
      decreases nll, !lsm
    {
      lsm := nll * (m.Offset() + nll) == 0;
      ZeroDown(m, nll);
      if !lsm {
        VisitDown(m, dummy, nll, nlm, lsp, x, y, sumprb);
        y := RatioDown(m, nll, y);
        nll := nll - 1;
        sumprb := sumprb + y;
        if sumprb >= dummy {
          return true, nll, y, sumprb;
        }
        if !lsp {
          return;
        }
      }
    }
    if !lsp {
      TurnAround(m, dummy, nll, nlm, x, y, sumprb);
    }
  }

  /**
   * Draws one cell. The code would draw again if a whole sweep stayed below the draw;
   * in exact arithmetic the sweep adds up to one, so that point is never reached.
   */
  method DrawCell(m: Margin, dummy: real) returns (k: nat)
    requires m.Valid() && m.ie > 0 && 0.0 < dummy <= 1.0
    ensures k == Pick(m, dummy)
  {
    hide Weight;
    StartFeasible(m);
    var nlm := Start(m);
    var x := Weight(m, nlm);
    if x >= dummy {
      return nlm;
    }
    assert x > 0.0;
    var sumprb, y, nll := x, x, nlm;
    FirstVisit(m, dummy);
    var lsp := false;
    while !lsp
      invariant Walking(m, dummy, nll, nlm, true, x, y, sumprb)
      invariant lsp ==> nlm == m.Hi() && nll == m.Lo()
      decreases m.Hi() - nlm, !lsp
    {
      lsp := (m.id - nlm) * (m.ia - nlm) == 0;
      ZeroUp(m, nlm);
      if !lsp {
        VisitUp(m, dummy, nll, nlm, x, y, sumprb);
        x := RatioUp(m, nlm, x);
        nlm := nlm + 1;
        sumprb := sumprb + x;
        if sumprb >= dummy {
          return nlm;
        }
      }
      var picked;
      picked, nll, y, sumprb := WalkDown(m, dummy, nll, y, sumprb, lsp, nlm, x);
      if picked {
        return nll;
      }
    }
    SweepIsComplete(m, dummy, x, y, sumprb, true);
    assert false;
  }

  lemma FirstVisit(m: Margin, dummy: real)
    requires m.Valid() && m.ie > 0 && m.Feasible(Start(m)) && Weight(m, Start(m)) < dummy
    ensures var k := Start(m);
      Walking(m, dummy, k, k, true, Weight(m, k), Weight(m, k), Weight(m, k))
  {
    hide Weight;
    var k := Start(m);
    assert Sum(m, k, k - 1) == 0.0;
    assert Visits(m)[1..] == Order(m, k, k, true);
  }

  // ----- the table -----

  /** Before column m: ia is still to be placed over columns that have ic, as in the rest of row. */
  ghost predicate RowRest(row: seq<nat>, m: int, rem: seq<nat>, ia: int, ic: int, draws: Draws, l: nat) {
    && InUnitInterval(draws)
    && |row| == |rem| && 0 <= m < |rem|
    && 0 <= ia <= ic && ic == Total(rem[m..])
    && row[m..] == RowFrom(rem[m..], ia, draws, l, m)
  }

  /** Draws the cell in column m; jwork[m] is reduced by it. */
  method DrawColumn(matrix: array2<int>, jwork: array<int>, l: nat, m: nat, ia: int, ie: int, draws: Draws,
                    ghost rem: seq<nat>, ghost row: seq<nat>)
    returns (k: nat)
    requires l < matrix.Length0 && matrix.Length1 == |rem| && jwork.Length >= |rem| - 1 && m < |rem| - 1
    requires RowRest(row, m, rem, ia, ie, draws, l) && ie > 0 && jwork[m] == rem[m]
    modifies matrix, jwork
    ensures k == row[m] && RowRest(row, m + 1, rem, ia - k, ie - rem[m], draws, l)
    ensures matrix[l, m] == row[m] && jwork[m] == rem[m] - row[m]
    ensures forall i, j :: 0 <= i < matrix.Length0 && 0 <= j < |rem| && !(i == l && j == m) ==>
      matrix[i, j] == old(matrix[i, j])
    ensures forall j :: 0 <= j < jwork.Length && j != m ==> jwork[j] == old(jwork[j])
  {
    hide RowRest, Pick;
    NextCell(row, m, rem, ia, ie, draws, l);
    k := DrawCell(Margin(ia, jwork[m], ie), draws(l, m));
    matrix[l, m] := k;
    jwork[m] := jwork[m] - k;
  }

  /** Draws row l into the matrix; jwork[m] is what column m still has, the last one excepted. */
  method DrawRow(matrix: array2<int>, jwork: array<int>, l: nat, ia0: nat, ic0: nat, draws: Draws,
                 ghost rem: seq<nat>, ghost row: seq<nat>)
    returns (ib: int)
    requires l < matrix.Length0 && matrix.Length1 == |rem| >= 2 && jwork.Length >= |rem| - 1
    requires RowRest(row, 0, rem, ia0, ic0, draws, l)
    requires forall j :: 0 <= j < |rem| - 1 ==> jwork[j] == rem[j]
    modifies matrix, jwork
    ensures forall j :: 0 <= j < |rem| ==> matrix[l, j] == row[j]
    ensures forall i, j :: 0 <= i < matrix.Length0 && i != l && 0 <= j < |rem| ==> matrix[i, j] == old(matrix[i, j])
    ensures forall j :: 0 <= j < |rem| - 1 ==> jwork[j] == rem[j] - row[j]
    ensures ib == (rem[|rem| - 2] - row[|rem| - 2]) + (rem[|rem| - 1] - row[|rem| - 1])
  {
    hide RowRest;
    var nc1 := matrix.Length1 - 1;
    var ia, ic := ia0, ic0;
    ib := 0;
    var m := 0;
    RestShape(row, 0, rem, ia, ic, draws, l);
    while m < nc1
      invariant 0 <= m <= nc1 && |row| == |rem|
      invariant RowRest(row, m, rem, ia, ic, draws, l)
      invariant forall j :: 0 <= j < m ==> matrix[l, j] == row[j]
      invariant forall i, j :: 0 <= i < matrix.Length0 && i != l && 0 <= j < |rem| ==> matrix[i, j] == old(matrix[i, j])
      invariant forall j :: 0 <= j < m ==> jwork[j] == rem[j] - row[j]
      invariant forall j :: m <= j < nc1 ==> jwork[j] == rem[j]
      invariant m == nc1 ==> ib == (rem[nc1 - 1] - row[nc1 - 1]) + (ic - ia)
    {
      RestShape(row, m, rem, ia, ic, draws, l);
      var ie := ic;
      ic := ic - jwork[m];
      ib := ie - ia;
      if ie == 0 {
        RowOfZeros(row, m, rem, ia, draws, l);
        ClearRow(matrix, l, m, nc1);
        matrix[l, nc1] := 0;
        return;
      }
      var k := DrawColumn(matrix, jwork, l, m, ia, ie, draws, rem, row);
      ia := ia - k;
      m := m + 1;
    }
    LastCell(row, rem, ia, ic, draws, l);
    matrix[l, nc1] := ia;
  }

  /** Fills the rest of a row that has nothing left to place with zeros. */
  method ClearRow(matrix: array2<int>, l: nat, m: nat, nc1: nat)
    requires l < matrix.Length0 && m <= nc1 < matrix.Length1
    modifies matrix
    ensures forall j :: m <= j < nc1 ==> matrix[l, j] == 0
    ensures forall i, j :: 0 <= i < matrix.Length0 && 0 <= j < matrix.Length1 && !(i == l && m <= j < nc1) ==>
      matrix[i, j] == old(matrix[i, j])
  {
    for j := m to nc1
      invariant forall c :: m <= c < j ==> matrix[l, c] == 0
      invariant forall i, c :: 0 <= i < matrix.Length0 && 0 <= c < matrix.Length1 && !(i == l && m <= c < j) ==>
        matrix[i, c] == old(matrix[i, c])
    {
      matrix[l, j] := 0;
    }
  }

  lemma RestShape(row: seq<nat>, m: int, rem: seq<nat>, ia: int, ic: int, draws: Draws, l: nat)
    requires RowRest(row, m, rem, ia, ic, draws, l)
    ensures |row| == |rem| && 0 <= ia <= ic
    ensures m == 0 ==> Below(row, rem)
  {
    assert row[0..] == row && rem[0..] == rem;
  }

  lemma RowOfZeros(row: seq<nat>, m: int, rem: seq<nat>, ia: int, draws: Draws, l: nat)
    requires RowRest(row, m, rem, ia, 0, draws, l)
    ensures ia == 0 && |row| == |rem|
    ensures forall j :: m <= j < |rem| ==> row[j] == 0 && rem[j] == 0
  {
    ZeroTotal(rem[m..]);
    ZeroTotal(row[m..]);
    forall j | m <= j < |rem| ensures row[j] == 0 && rem[j] == 0 {
      assert rem[m..][j - m] == 0 && row[m..][j - m] == 0;
    }
  }

  lemma NextCell(row: seq<nat>, m: int, rem: seq<nat>, ia: int, ie: int, draws: Draws, l: nat)
    requires RowRest(row, m, rem, ia, ie, draws, l)
    requires m < |rem| - 1 && ie > 0
    ensures |row| == |rem| && 0 <= ia && 0.0 < draws(l, m) < 1.0
    ensures var c := Margin(ia, rem[m], ie);
      && c.Valid()
      && row[m] == Pick(c, draws(l, m))
      && RowRest(row, m + 1, rem, ia - row[m], ie - rem[m], draws, l)
  {
    hide Pick;
    var rest := rem[m..];
    var c := Margin(ia, rem[m], ie);
    PickFeasible(c, draws(l, m));
    var k := Pick(c, draws(l, m));
    assert rest[1..] == rem[m + 1..];
    var tail := RowFrom(rest[1..], ia - k, draws, l, m + 1);
    ConsEquals(k, tail, row[m..]);
    assert row[m..][1..] == row[m + 1..];
  }

  lemma LastCell(row: seq<nat>, rem: seq<nat>, ia: int, ic: int, draws: Draws, l: nat)
    requires rem != [] && RowRest(row, |rem| - 1, rem, ia, ic, draws, l)
    ensures |row| == |rem| && row[|rem| - 1] == ia && rem[|rem| - 1] == ic
  {
    var m := |rem| - 1;
    TotalOfOne(rem[m..]);
    assert row[m..] == [ia];
    assert row[m] == row[m..][0];
  }

  /** The rows above l are those of the table; the rest of it is the table of what is left. */
  ghost predicate TableRest(table: seq<seq<nat>>, l: int, rows: seq<nat>, rem: seq<nat>, draws: Draws) {
    && InUnitInterval(draws)
    && 0 <= l < |rows| == |table| && rem != []
    && Total(rows[l..]) == Total(rem)
    && table[l..] == Table(rows[l..], rem, draws, l)
  }

  lemma TableStart(rows: seq<nat>, rem: seq<nat>, draws: Draws)
    requires rows != [] && rem != [] && Total(rows) == Total(rem) && InUnitInterval(draws)
    ensures |Table(rows, rem, draws, 0)| == |rows|
    ensures TableRest(Table(rows, rem, draws, 0), 0, rows, rem, draws)
  {
    TableHasMargins(rows, rem, draws, 0);
    assert rows[0..] == rows;
    assert Table(rows, rem, draws, 0)[0..] == Table(rows, rem, draws, 0);
  }

  lemma NextRow(table: seq<seq<nat>>, l: int, rows: seq<nat>, rem: seq<nat>, draws: Draws)
    requires TableRest(table, l, rows, rem, draws) && l < |rows| - 1
    ensures |table| == |rows| && RowRest(table[l], 0, rem, rows[l], Total(rem), draws, l)
    ensures Below(table[l], rem)
    ensures Total(Subtract(rem, table[l])) == Total(rem) - rows[l]
    ensures TableRest(table, l + 1, rows, Subtract(rem, table[l]), draws)
  {
    var rest := rows[l..];
    var row := RowFrom(rem, rest[0], draws, l, 0);
    SubtractTotal(rem, row);
    assert rest[1..] == rows[l + 1..];
    var tail := Table(rest[1..], Subtract(rem, row), draws, l + 1);
    assert table[l..] == [row] + tail;
    assert table[l] == table[l..][0] == row;
    assert table[l + 1..] == table[l..][1..] == tail;
    assert rem[0..] == rem && row[0..] == row;
  }

  lemma LastTableRow(table: seq<seq<nat>>, rows: seq<nat>, rem: seq<nat>, draws: Draws)
    requires rows != [] && TableRest(table, |rows| - 1, rows, rem, draws)
    ensures |table| == |rows| && table[|rows| - 1] == rem
  {
    assert table[|rows| - 1..][0] == table[|rows| - 1];
  }

  /**
   * rcont2. nrowt and ncolt are the margins; the total of the last column is never read.
   * draws stands for the successive results of unif_rand, one for each cell.
   */
  method Rcont2(nrowt: seq<nat>, ncolt: seq<nat>, ntotal: nat, draws: Draws, jwork: array<int>, matrix: array2<int>)
    requires |nrowt| >= 2 && |ncolt| >= 2
    requires Total(nrowt) == Total(ncolt) == ntotal
    requires matrix.Length0 == |nrowt| && matrix.Length1 == |ncolt| && jwork.Length >= |ncolt| - 1
    requires InUnitInterval(draws)
    modifies jwork, matrix
    ensures var table := Table(nrowt, ncolt, draws, 0);
      && HasMargins(table, nrowt, ncolt)
      && forall l, m :: 0 <= l < |nrowt| && 0 <= m < |ncolt| ==> matrix[l, m] == table[l][m]
  {
    hide Table, TableRest, RowRest, Total;
    var nr1, nc1 := |nrowt| - 1, |ncolt| - 1;
    ghost var table := Table(nrowt, ncolt, draws, 0);
    TableHasMargins(nrowt, ncolt, draws, 0);
    TableStart(nrowt, ncolt, draws);
    for j := 0 to nc1
      invariant forall m :: 0 <= m < j ==> jwork[m] == ncolt[m]
    {
      jwork[j] := ncolt[j];
    }
    var jc := ntotal;
    var ib := 0;
    ghost var rem := ncolt;
    var l := 0;
    while l < nr1
      invariant 0 <= l <= nr1 && |rem| == |ncolt| && jc == Total(rem)
      invariant TableRest(table, l, nrowt, rem, draws)
      invariant forall m :: 0 <= m < nc1 ==> jwork[m] == rem[m]
      invariant forall i, m :: 0 <= i < l && 0 <= m < |ncolt| ==> matrix[i, m] == table[i][m]
      invariant l > 0 ==> ib == rem[nc1 - 1] + rem[nc1]
    {
      NextRow(table, l, nrowt, rem, draws);
      ib := DrawRow(matrix, jwork, l, nrowt[l], jc, draws, rem, table[l]);
      jc := jc - nrowt[l];
      rem := Subtract(rem, table[l]);
      l := l + 1;
    }
    LastTableRow(table, nrowt, rem, draws);
    for m := 0 to nc1
      invariant forall i, j :: 0 <= i < nr1 && 0 <= j < |ncolt| ==> matrix[i, j] == table[i][j]
      invariant forall j :: 0 <= j < nc1 ==> jwork[j] == rem[j]
      invariant forall j :: 0 <= j < m ==> matrix[nr1, j] == rem[j]
    {
      matrix[nr1, m] := jwork[m];
    }
    matrix[nr1, nc1] := ib - matrix[nr1, nc1 - 1];
  }
}
