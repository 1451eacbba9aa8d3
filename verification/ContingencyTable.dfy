/** Tables with given margins: how the draws determine one, and how likely it is. */
module ContingencyTable {
  import opened Naturals
  import opened Hypergeometric
  import opened CellWalk

  function Total(s: seq<nat>): nat {
    if s == [] then 0 else s[0] + Total(s[1..])
  }

  /** One random number in (0, 1) for each cell. */
  type Draws = (nat, nat) -> real

  ghost predicate InUnitInterval(draws: Draws) {
    forall l, m :: 0.0 < draws(l, m) < 1.0
  }

  lemma PickFeasible(m: Margin, dummy: real)
    requires m.Valid() && m.ie > 0 && 0.0 < dummy <= 1.0
    ensures m.Feasible(Pick(m, dummy))
  {
    StartFeasible(m);
    PickInterval(m, dummy, Start(m));
  }

  function Zeros(n: nat): (s: seq<nat>)
    ensures |s| == n && Total(s) == 0 && forall i :: 0 <= i < n ==> s[i] == 0
  {
    if n == 0 then [] else [0] + Zeros(n - 1)
  }

  ghost predicate Below(row: seq<nat>, rem: seq<nat>) {
    |row| == |rem| && forall i :: 0 <= i < |row| ==> row[i] <= rem[i]
  }

  lemma {:induction false} ZeroTotal(rem: seq<nat>)
    requires Total(rem) == 0
    ensures rem == Zeros(|rem|)
  {
    if rem != [] {
      ZeroTotal(rem[1..]);
    }
  }

  /** Columns m, m + 1, ... of row l: ia is to be spread over columns that still have rem. */
  ghost function RowFrom(rem: seq<nat>, ia: nat, draws: Draws, l: nat, m: nat): (row: seq<nat>)
    requires rem != [] && ia <= Total(rem) && InUnitInterval(draws)
    ensures Below(row, rem) && Total(row) == ia
    decreases |rem|
  {
    if |rem| == 1 then [ia]
    else if Total(rem) == 0 then Zeros(|rem|)
    else
      var c := Margin(ia, rem[0], Total(rem));
      PickFeasible(c, draws(l, m));
      var k := Pick(c, draws(l, m));
      [k] + RowFrom(rem[1..], ia - k, draws, l, m + 1)
  }

  ghost function Subtract(rem: seq<nat>, row: seq<nat>): (s: seq<nat>)
    requires Below(row, rem)
    ensures |s| == |rem| && forall i :: 0 <= i < |s| ==> s[i] == rem[i] - row[i]
  {
    seq(|rem|, i requires 0 <= i < |rem| => rem[i] - row[i])
  }

  lemma {:induction false} SubtractTotal(rem: seq<nat>, row: seq<nat>)
    requires Below(row, rem)
    ensures Total(Subtract(rem, row)) == Total(rem) - Total(row)
  {
    if rem != [] {
      SubtractTotal(rem[1..], row[1..]);
      assert Subtract(rem, row)[1..] == Subtract(rem[1..], row[1..]);
    }
  }

  /** Rows l, l + 1, ...: the last one takes what the columns still have. */
  ghost function Table(rows: seq<nat>, rem: seq<nat>, draws: Draws, l: nat): seq<seq<nat>>
    requires rows != [] && rem != [] && Total(rows) == Total(rem) && InUnitInterval(draws)
    decreases |rows|
  {
    if |rows| == 1 then [rem]
    else
      var row := RowFrom(rem, rows[0], draws, l, 0);
      SubtractTotal(rem, row);
      [row] + Table(rows[1..], Subtract(rem, row), draws, l + 1)
  }

  function ColumnTotal(t: seq<seq<nat>>, m: nat): nat
    requires forall l :: 0 <= l < |t| ==> m < |t[l]|
  {
    if t == [] then 0 else t[0][m] + ColumnTotal(t[1..], m)
  }

  ghost predicate Shape(t: seq<seq<nat>>, nrow: nat, ncol: nat) {
    |t| == nrow && forall l :: 0 <= l < |t| ==> |t[l]| == ncol
  }

  /** t has the row totals rows and the column totals rem. */
  ghost predicate HasMargins(t: seq<seq<nat>>, rows: seq<nat>, rem: seq<nat>) {
    && Shape(t, |rows|, |rem|)
    && (forall l :: 0 <= l < |t| ==> Total(t[l]) == rows[l])
    && (forall m :: 0 <= m < |rem| ==> ColumnTotal(t, m) == rem[m])
  }

  /** Whatever the draws, the table has exactly the given margins. */
  lemma {:induction false} TableHasMargins(rows: seq<nat>, rem: seq<nat>, draws: Draws, l: nat)
    requires rows != [] && rem != [] && Total(rows) == Total(rem) && InUnitInterval(draws)
    ensures HasMargins(Table(rows, rem, draws, l), rows, rem)
    decreases |rows|
  {
    var t := Table(rows, rem, draws, l);
    if |rows| == 1 {
      assert rows[1..] == [];
      assert t[1..] == [];
    } else {
      var row := RowFrom(rem, rows[0], draws, l, 0);
      SubtractTotal(rem, row);
      TableHasMargins(rows[1..], Subtract(rem, row), draws, l + 1);
      assert t[1..] == Table(rows[1..], Subtract(rem, row), draws, l + 1);
      forall i | 0 <= i < |t| ensures |t[i]| == |rem| && Total(t[i]) == rows[i] {
        if i > 0 { assert t[i] == t[1..][i - 1]; }
      }
      forall m | 0 <= m < |rem| ensures ColumnTotal(t, m) == rem[m] {
        assert ColumnTotal(t[1..], m) == Subtract(rem, row)[m];
      }
    }
  }

  // ----- which draws give a row, and with what probability -----

  /** Each draw lies in the interval that makes its cell come out as in row. */
  ghost predicate DrawsSelect(rem: seq<nat>, ia: nat, draws: Draws, l: nat, m: nat, row: seq<nat>)
    requires rem != [] && ia <= Total(rem) && Below(row, rem) && Total(row) == ia
    decreases |rem|
  {
    if |rem| == 1 || Total(rem) == 0 then true
    else
      var c := Margin(ia, rem[0], Total(rem));
      TailTotals(row, rem);
      && MassBefore(c, Visits(c), row[0]) < draws(l, m) <= MassBefore(c, Visits(c), row[0]) + Weight(c, row[0])
      && DrawsSelect(rem[1..], ia - row[0], draws, l, m + 1, row[1..])
  }

  lemma {:induction false} BelowTotal(row: seq<nat>, rem: seq<nat>)
    requires Below(row, rem)
    ensures Total(row) <= Total(rem)
  {
    if row != [] {
      BelowTotal(row[1..], rem[1..]);
    }
  }

  lemma TailTotals(row: seq<nat>, rem: seq<nat>)
    requires Below(row, rem) && row != []
    ensures Below(row[1..], rem[1..]) && Total(row[1..]) == Total(row) - row[0]
    ensures Total(row[1..]) <= Total(rem[1..])
    ensures Margin(Total(row), rem[0], Total(rem)).Valid()
    ensures Margin(Total(row), rem[0], Total(rem)).Feasible(row[0])
  {
    BelowTotal(row[1..], rem[1..]);
  }

  lemma ConsEquals(k: nat, tail: seq<nat>, row: seq<nat>)
    requires row != []
    ensures [k] + tail == row <==> k == row[0] && tail == row[1..]
  {
    assert row == [row[0]] + row[1..];
    assert ([k] + tail)[1..] == tail;
  }

  /** A row comes out exactly when its draws lie in a box of intervals. */
  lemma {:induction false} RowIffDrawsSelect(rem: seq<nat>, ia: nat, draws: Draws, l: nat, m: nat, row: seq<nat>)
    requires rem != [] && ia <= Total(rem) && InUnitInterval(draws)
    requires Below(row, rem) && Total(row) == ia
    ensures RowFrom(rem, ia, draws, l, m) == row <==> DrawsSelect(rem, ia, draws, l, m, row)
    decreases |rem|
  {
    hide Weight, Pick, MassBefore, Visits;
    if |rem| == 1 {
      assert row[1..] == [];
    } else if Total(rem) == 0 {
      ZeroTotal(row);
    } else {
      var c := Margin(ia, rem[0], Total(rem));
      var d := draws(l, m);
      TailTotals(row, rem);
      PickInterval(c, d, row[0]);
      PickFeasible(c, d);
      var k := Pick(c, d);
      var tail := RowFrom(rem[1..], ia - k, draws, l, m + 1);
      assert RowFrom(rem, ia, draws, l, m) == [k] + tail;
      ConsEquals(k, tail, row);
      if k == row[0] {
        RowIffDrawsSelect(rem[1..], ia - k, draws, l, m + 1, row[1..]);
      }
    }
  }

  /** t fits the margins row by row: each row below what is left, the last one all of it. */
  ghost predicate Fits(t: seq<seq<nat>>, rows: seq<nat>, rem: seq<nat>)
    decreases |rows|
  {
    && rows != [] && |t| == |rows| && Total(t[0]) == rows[0] && Below(t[0], rem)
    && (if |rows| == 1 then t[0] == rem else Fits(t[1..], rows[1..], Subtract(rem, t[0])))
  }

  lemma {:induction false} MarginsFit(t: seq<seq<nat>>, rows: seq<nat>, rem: seq<nat>)
    requires rows != [] && HasMargins(t, rows, rem)
    ensures Fits(t, rows, rem)
    decreases |rows|
  {
    forall m | 0 <= m < |rem| ensures t[0][m] <= rem[m] {
      assert ColumnTotal(t, m) == rem[m];
    }
    if |rows| == 1 {
      assert t[1..] == [];
      forall m | 0 <= m < |rem| ensures t[0][m] == rem[m] {
        assert ColumnTotal(t, m) == rem[m];
      }
    } else {
      forall m | 0 <= m < |rem| ensures ColumnTotal(t[1..], m) == Subtract(rem, t[0])[m] {
        assert ColumnTotal(t, m) == rem[m];
      }
      MarginsFit(t[1..], rows[1..], Subtract(rem, t[0]));
    }
  }

  /** The draws that give the whole table, row by row. */
  ghost predicate TableDrawsSelect(rows: seq<nat>, rem: seq<nat>, draws: Draws, l: nat, t: seq<seq<nat>>)
    requires rem != [] && Fits(t, rows, rem)
    decreases |rows|
  {
    if |rows| == 1 then true
    else
      BelowTotal(t[0], rem);
      DrawsSelect(rem, rows[0], draws, l, 0, t[0])
      && TableDrawsSelect(rows[1..], Subtract(rem, t[0]), draws, l + 1, t[1..])
  }

  /** A table comes out exactly when its draws lie in a box of intervals. */
  lemma {:induction false} TableIffDrawsSelect(rows: seq<nat>, rem: seq<nat>, draws: Draws, l: nat, t: seq<seq<nat>>)
    requires rem != [] && Fits(t, rows, rem) && Total(rows) == Total(rem) && InUnitInterval(draws)
    ensures Table(rows, rem, draws, l) == t <==> TableDrawsSelect(rows, rem, draws, l, t)
    decreases |rows|
  {
    if |rows| == 1 {
      assert t == [t[0]];
    } else {
      BelowTotal(t[0], rem);
      RowIffDrawsSelect(rem, rows[0], draws, l, 0, t[0]);
      var row := RowFrom(rem, rows[0], draws, l, 0);
      if row == t[0] {
        SubtractTotal(rem, row);
        TableIffDrawsSelect(rows[1..], Subtract(rem, row), draws, l + 1, t[1..]);
        assert t == [row] + t[1..];
        assert Table(rows, rem, draws, l)[1..] == Table(rows[1..], Subtract(rem, row), draws, l + 1);
      }
    }
  }

  // ----- the volume of that box -----

  /** A product that proofs about lists can treat as one symbol. */
  function Times(a: real, b: real): (r: real)
    ensures a > 0.0 && b > 0.0 ==> r > 0.0
  {
    a * b
  }

  function Factorials(s: seq<nat>): (r: real)
    ensures r > 0.0
  {
    if s == [] then 1.0 else Times(F(s[0]), Factorials(s[1..]))
  }

  function CellFactorials(t: seq<seq<nat>>): (r: real)
    ensures r > 0.0
  {
    if t == [] then 1.0 else Times(Factorials(t[0]), CellFactorials(t[1..]))
  }

  /** Product of the interval lengths in DrawsSelect. */
  ghost function RowWeight(rem: seq<nat>, ia: nat, row: seq<nat>): real
    requires rem != [] && ia <= Total(rem) && Below(row, rem) && Total(row) == ia
    decreases |rem|
  {
    if |rem| == 1 || Total(rem) == 0 then 1.0
    else
      TailTotals(row, rem);
      Times(Weight(Margin(ia, rem[0], Total(rem)), row[0]), RowWeight(rem[1..], ia - row[0], row[1..]))
  }

  ghost function TableWeight(rows: seq<nat>, rem: seq<nat>, t: seq<seq<nat>>): real
    requires rem != [] && Fits(t, rows, rem)
    decreases |rows|
  {
    if |rows| == 1 then 1.0
    else
      BelowTotal(t[0], rem);
      Times(RowWeight(rem, rows[0], t[0]), TableWeight(rows[1..], Subtract(rem, t[0]), t[1..]))
  }

  // ----- the algebra -----

  lemma Congruent(a: real, b: real, a': real, b': real)
    requires a == a' && b == b'
    ensures a * b == a' * b'
  {
  }

  lemma Times21(a: real, b: real, c: real)
    ensures Times(Times(a, b), c) == (a * b) * c
  {
    Congruent(Times(a, b), c, a * b, c);
  }

  lemma Times12(a: real, b: real, c: real)
    ensures Times(a, Times(b, c)) == a * (b * c)
  {
    Congruent(a, Times(b, c), a, b * c);
  }

  lemma Times22(a: real, b: real, c: real, d: real)
    ensures Times(Times(a, b), Times(c, d)) == (a * b) * (c * d)
  {
    Congruent(Times(a, b), Times(c, d), a * b, c * d);
  }

  lemma Times13(a: real, b: real, c: real, d: real)
    ensures Times(a, Times(b, Times(c, d))) == a * (b * (c * d))
  {
    Times12(b, c, d);
    Congruent(a, Times(b, Times(c, d)), a, b * (c * d));
  }

  lemma Times1122(a: real, b: real, c: real, d: real, e: real, f: real)
    ensures Times(a, Times(b, Times(Times(c, d), Times(e, f)))) == a * (b * ((c * d) * (e * f)))
  {
    Times22(c, d, e, f);
    Congruent(b, Times(Times(c, d), Times(e, f)), b, (c * d) * (e * f));
    Congruent(a, Times(b, Times(Times(c, d), Times(e, f))), a, b * ((c * d) * (e * f)));
  }

  lemma RowTelescope(w: real, rw: real, e: real, k: real, s: real, p: real, q: real, a: real, b: real, g: real, r: real,
                     x: real, y: real, z: real)
    requires g > 0.0 && p > 0.0 && q > 0.0
    requires Times(w, Times(e, Times(Times(k, s), Times(p, q)))) == Times(Times(a, b), Times(g, r))
    requires Times(rw, Times(g, Times(x, y))) == Times(Times(p, q), z)
    ensures Times(Times(w, rw), Times(e, Times(Times(k, x), Times(s, y)))) == Times(Times(a, b), Times(r, z))
  {
    hide Times;
    Times1122(w, e, k, s, p, q);
    Times22(a, b, g, r);
    Times13(rw, g, x, y);
    Times21(p, q, z);
    Times1122(Times(w, rw), e, k, x, s, y);
    Times2(w, rw);
    Congruent(Times(w, rw), e * ((k * x) * (s * y)), w * rw, e * ((k * x) * (s * y)));
    Times22(a, b, r, z);
    PlainRowTelescope(w, rw, e, k, s, p, q, a, b, g, r, x, y, z,
                      w * (e * ((k * s) * (p * q))), rw * (g * (x * y)));
  }

  lemma Times2(a: real, b: real)
    ensures Times(a, b) == a * b
  {
  }

  lemma PlainRowTelescope(w: real, rw: real, e: real, k: real, s: real, p: real, q: real, a: real, b: real, g: real,
                          r: real, x: real, y: real, z: real, u: real, v: real)
    requires g > 0.0 && p > 0.0 && q > 0.0
    requires u == w * (e * ((k * s) * (p * q))) && u == (a * b) * (g * r)
    requires v == rw * (g * (x * y)) && v == (p * q) * z
    ensures (w * rw) * (e * ((k * x) * (s * y))) == (a * b) * (r * z)
  {
    PositiveReal(p, q);
    PositiveReal(p * q, g);
    Congruent(u, v, w * (e * ((k * s) * (p * q))), rw * (g * (x * y)));
    Congruent(u, v, (a * b) * (g * r), (p * q) * z);
    RegroupRow(w, rw, e, k, s, p, q, g, x, y, a, b, r, z);
    SameProduct((w * rw) * (e * ((k * x) * (s * y))), (a * b) * (r * z), p * q * g, u * v);
  }

  lemma RegroupRow(w: real, rw: real, e: real, k: real, s: real, p: real, q: real, g: real, x: real, y: real, a: real,
                   b: real, r: real, z: real)
    ensures ((w * rw) * (e * ((k * x) * (s * y)))) * (p * q * g) ==
      (w * (e * ((k * s) * (p * q)))) * (rw * (g * (x * y)))
    ensures ((a * b) * (r * z)) * (p * q * g) == ((a * b) * (g * r)) * ((p * q) * z)
  {
  }

  lemma SameProduct(a: real, b: real, c: real, v: real)
    requires c > 0.0 && a * c == v && b * c == v
    ensures a == b
  {
    CancelFactor(a, b, c);
  }

  lemma TableTelescope(rw: real, tw: real, n: real, x: real, y: real, a: real, b: real, z: real, ct: real, fr: real)
    requires b > 0.0 && y > 0.0
    requires Times(rw, Times(n, Times(x, y))) == Times(Times(a, b), z)
    requires Times(tw, Times(b, ct)) == Times(fr, y)
    ensures Times(Times(rw, tw), Times(n, Times(x, ct))) == Times(Times(a, fr), z)
  {
    hide Times;
    Times13(rw, n, x, y);
    Times21(a, b, z);
    Times12(tw, b, ct);
    Times2(fr, y);
    Times13(Times(rw, tw), n, x, ct);
    Times2(rw, tw);
    Congruent(Times(rw, tw), n * (x * ct), rw * tw, n * (x * ct));
    Times21(a, fr, z);
    PlainTableTelescope(rw, tw, n, x, y, a, b, z, ct, fr, rw * (n * (x * y)), tw * (b * ct));
  }

  lemma PlainTableTelescope(rw: real, tw: real, n: real, x: real, y: real, a: real, b: real, z: real, ct: real,
                            fr: real, u: real, v: real)
    requires b > 0.0 && y > 0.0
    requires u == rw * (n * (x * y)) && u == (a * b) * z
    requires v == tw * (b * ct) && v == fr * y
    ensures (rw * tw) * (n * (x * ct)) == (a * fr) * z
  {
    PositiveReal(y, b);
    Congruent(u, v, rw * (n * (x * y)), tw * (b * ct));
    Congruent(u, v, (a * b) * z, fr * y);
    RegroupTable(rw, tw, n, x, ct, a, fr, z, y, b);
    SameProduct((rw * tw) * (n * (x * ct)), (a * fr) * z, y * b, u * v);
  }

  lemma RegroupTable(rw: real, tw: real, n: real, x: real, ct: real, a: real, fr: real, z: real, y: real, b: real)
    ensures ((rw * tw) * (n * (x * ct))) * (y * b) == (rw * (n * (x * y))) * (tw * (b * ct))
    ensures ((a * fr) * z) * (y * b) == ((a * b) * z) * (fr * y)
  {
  }

  // ----- rows -----

  lemma WeightTimesDenominator(c: Margin, k: nat)
    requires c.Valid() && c.Feasible(k)
    ensures Times(Weight(c, k),
                  Times(F(c.ie), Times(Times(F(k), F(c.id - k)), Times(F(c.ia - k), F(c.Offset() + k))))) ==
      Times(Times(F(c.ia), F(c.ie - c.ia)), Times(F(c.ie - c.id), F(c.id)))
  {
    hide F;
    var d := Denominator(c, k);
    assert Weight(c, k) * d == Numerator(c);
  }

  /** The weight of a row, in closed form. */
  lemma {:induction false} RowWeightClosed(rem: seq<nat>, ia: nat, row: seq<nat>)
    requires rem != [] && ia <= Total(rem) && Below(row, rem) && Total(row) == ia
    ensures Times(RowWeight(rem, ia, row), Times(F(Total(rem)), Times(Factorials(row), Factorials(Subtract(rem, row)))))
      == Times(Times(F(ia), F(Total(rem) - ia)), Factorials(rem))
    decreases |rem|
  {
    hide F, Weight, Times;
    var sub := Subtract(rem, row);
    if |rem| == 1 {
      SingleRow(rem, row, sub);
    } else if Total(rem) == 0 {
      EmptyRow(rem, row, sub);
    } else {
      var c := Margin(ia, rem[0], Total(rem));
      TailTotals(row, rem);
      RowWeightClosed(rem[1..], ia - row[0], row[1..]);
      assert sub[1..] == Subtract(rem[1..], row[1..]);
      WeightTimesDenominator(c, row[0]);
      RowTelescope(Weight(c, row[0]), RowWeight(rem[1..], ia - row[0], row[1..]), F(c.ie), F(row[0]),
                   F(rem[0] - row[0]), F(ia - row[0]), F(c.Offset() + row[0]), F(ia), F(c.ie - ia),
                   F(c.ie - rem[0]), F(rem[0]), Factorials(row[1..]), Factorials(sub[1..]), Factorials(rem[1..]));
    }
  }

  lemma SingleRow(rem: seq<nat>, row: seq<nat>, sub: seq<nat>)
    requires |rem| == 1 && Below(row, rem) && sub == Subtract(rem, row) && Total(row) <= Total(rem)
    ensures Times(1.0, Times(F(Total(rem)), Times(Factorials(row), Factorials(sub)))) ==
      Times(Times(F(Total(row)), F(Total(rem) - Total(row))), Factorials(rem))
  {
    hide F, Times, Factorials, Total;
    TotalOfOne(rem);
    TotalOfOne(row);
    FactorialsOfOne(row);
    FactorialsOfOne(rem);
    FactorialsOfOne(sub);
    SwapFactors(F(rem[0]), F(row[0]), F(sub[0]));
  }

  lemma TotalOfOne(s: seq<nat>)
    requires |s| == 1
    ensures Total(s) == s[0]
  {
    assert s[1..] == [];
  }

  lemma FactorialsOfOne(s: seq<nat>)
    requires |s| == 1
    ensures Factorials(s) == F(s[0])
  {
    hide F;
    assert s[1..] == [];
  }

  lemma SwapFactors(n: real, x: real, y: real)
    ensures Times(1.0, Times(n, Times(x, y))) == Times(Times(x, y), n)
  {
  }

  lemma EmptyRow(rem: seq<nat>, row: seq<nat>, sub: seq<nat>)
    requires Total(rem) == 0 && Total(row) == 0 && Below(row, rem) && sub == Subtract(rem, row)
    ensures Times(1.0, Times(F(Total(rem)), Times(Factorials(row), Factorials(sub)))) ==
      Times(Times(F(Total(row)), F(Total(rem) - Total(row))), Factorials(rem))
  {
    ZeroTotal(rem);
    ZeroTotal(row);
    assert sub == Zeros(|rem|);
    ZeroFactorials(|rem|);
    assert F(0) == 1.0;
  }

  lemma {:induction false} ZeroFactorials(n: nat)
    ensures Factorials(Zeros(n)) == 1.0
  {
    if n > 0 {
      ZeroFactorials(n - 1);
      assert Zeros(n)[1..] == Zeros(n - 1);
      assert F(0) == 1.0;
    }
  }

  // ----- tables -----

  lemma {:induction false} TableWeightClosed(rows: seq<nat>, rem: seq<nat>, t: seq<seq<nat>>)
    requires rem != [] && Fits(t, rows, rem) && Total(rows) == Total(rem)
    ensures Times(TableWeight(rows, rem, t), Times(F(Total(rem)), CellFactorials(t))) ==
      Times(Factorials(rows), Factorials(rem))
    decreases |rows|
  {
    hide F, Times;
    if |rows| == 1 {
      LastRow(rows, rem, t);
    } else {
      var sub := Subtract(rem, t[0]);
      SubtractTotal(rem, t[0]);
      BelowTotal(t[0], rem);
      TableWeightClosed(rows[1..], sub, t[1..]);
      RowWeightClosed(rem, rows[0], t[0]);
      TableTelescope(RowWeight(rem, rows[0], t[0]), TableWeight(rows[1..], sub, t[1..]), F(Total(rem)),
                     Factorials(t[0]), Factorials(sub), F(rows[0]), F(Total(rem) - rows[0]), Factorials(rem),
                     CellFactorials(t[1..]), Factorials(rows[1..]));
    }
  }

  lemma LastRow(rows: seq<nat>, rem: seq<nat>, t: seq<seq<nat>>)
    requires |rows| == 1 && t == [rem] && Total(rows) == Total(rem)
    ensures Times(1.0, Times(F(Total(rem)), CellFactorials(t))) == Times(Factorials(rows), Factorials(rem))
  {
    hide F;
    assert rows[1..] == [] && t[1..] == [];
    assert Total(rows) == rows[0];
    assert CellFactorials(t) == Factorials(rem) * 1.0;
    FactorialsOfOne(rows);
  }

  /** The factorials of the margins over those of the total and the cells. */
  function FisherProbability(rows: seq<nat>, rem: seq<nat>, t: seq<seq<nat>>): real {
    Ratio(Factorials(rows), Factorials(rem), F(Total(rem)), CellFactorials(t))
  }

  function Ratio(n1: real, n2: real, d1: real, d2: real): real
    requires d1 > 0.0 && d2 > 0.0
  {
    PositiveReal(d1, d2);
    n1 * n2 / (d1 * d2)
  }

  /** The volume of the box of draws that give t is Fisher's conditional probability of t. */
  lemma TableWeightIsFisher(rows: seq<nat>, rem: seq<nat>, t: seq<seq<nat>>)
    requires rows != [] && rem != [] && HasMargins(t, rows, rem) && Total(rows) == Total(rem)
    ensures Fits(t, rows, rem)
    ensures TableWeight(rows, rem, t) == FisherProbability(rows, rem, t)
  {
    hide F, TableWeight, FisherProbability, Times;
    MarginsFit(t, rows, rem);
    TableWeightClosed(rows, rem, t);
    SolveForProbability(rows, rem, t, TableWeight(rows, rem, t));
  }

  lemma SolveForProbability(rows: seq<nat>, rem: seq<nat>, t: seq<seq<nat>>, x: real)
    requires Times(x, Times(F(Total(rem)), CellFactorials(t))) == Times(Factorials(rows), Factorials(rem))
    ensures x == FisherProbability(rows, rem, t)
  {
    hide F, Times, Ratio;
    SolveQuotient(x, F(Total(rem)), CellFactorials(t), Factorials(rows), Factorials(rem));
  }

  lemma SolveQuotient(x: real, d1: real, d2: real, n1: real, n2: real)
    requires d1 > 0.0 && d2 > 0.0 && Times(x, Times(d1, d2)) == Times(n1, n2)
    ensures x == Ratio(n1, n2, d1, d2)
  {
    hide Times;
    var y := n1 * n2 / (d1 * d2);
    PositiveReal(d1, d2);
    Times12(x, d1, d2);
    Times2(n1, n2);
    assert y * (d1 * d2) == n1 * n2;
    SameProduct(x, y, d1 * d2, n1 * n2);
  }
}
