/** qrupdt: the triangular factor after a change of rank one, by exchanges and rotations of adjacent rows. */
module QrUpdate {
  import opened Vectors
  import opened Matrices

  /** Square roots are known by their squares. */
  ghost predicate IsRoot(root: real -> real) {
    forall x :: x >= 0.0 ==> root(x) >= 0.0 && Times(root(x), root(x)) == x
  }

  // ----- orthogonal changes of two adjacent entries -----

  /** The matrix (p q; r t). */
  datatype Turn = Turn(p: real, q: real, r: real, t: real) {
    predicate Orthogonal() {
      && Times(p, p) + Times(r, r) == 1.0 && Times(q, q) + Times(t, t) == 1.0
      && Times(p, q) + Times(r, t) == 0.0 && Times(q, p) + Times(t, r) == 0.0
    }

    function First(x: real, z: real): real {
      Times(p, x) + Times(q, z)
    }

    function Second(x: real, z: real): real {
      Times(r, x) + Times(t, z)
    }
  }

  const EXCHANGE := Turn(0.0, 1.0, 1.0, 0.0)

  /** x' is x with entries i and i + 1 turned. */
  ghost predicate Turned(x: Vector, x': Vector, i: nat, m: Turn) {
    && i + 1 < |x| == |x'|
    && x'[i] == m.First(x[i], x[i + 1]) && x'[i + 1] == m.Second(x[i], x[i + 1])
    && forall k :: 0 <= k < |x| && k != i && k != i + 1 ==> x'[k] == x[k]
  }

  lemma TwoTerms(m: Turn, x: real, z: real, v: real, w: real)
    requires m.Orthogonal()
    ensures Times(m.First(x, z), m.First(v, w)) + Times(m.Second(x, z), m.Second(v, w)) == Times(x, v) + Times(z, w)
  {
    hide Times;
    Bilinear(m.p, m.q, m.r, m.t, m.p, m.q, m.r, m.t, x, z, v, w);
  }

  // The factors of squares are separate parameters in the lemmas that follow.

  lemma Bilinear(p: real, q: real, r: real, t: real, p': real, q': real, r': real, t': real,
                 x: real, z: real, v: real, w: real)
    requires Times(p, p') + Times(r, r') == 1.0 && Times(q, q') + Times(t, t') == 1.0
    requires Times(p, q') + Times(r, t') == 0.0 && Times(q, p') + Times(t, r') == 0.0
    ensures Times(Times(p, x) + Times(q, z), Times(p', v) + Times(q', w)) +
            Times(Times(r, x) + Times(t, z), Times(r', v) + Times(t', w)) == Times(x, v) + Times(z, w)
  {
    hide Times;
    Expand(p, q, p', q', x, z, v, w);
    Expand(r, t, r', t', x, z, v, w);
    Collect(Times(p, p'), Times(r, r'), 1.0, Times(x, v));
    Collect(Times(p, q'), Times(r, t'), 0.0, Times(x, w));
    Collect(Times(q, p'), Times(t, r'), 0.0, Times(z, v));
    Collect(Times(q, q'), Times(t, t'), 1.0, Times(z, w));
    Units(Times(x, v));
    Units(Times(x, w));
    Units(Times(z, v));
    Units(Times(z, w));
  }

  lemma Expand(p: real, q: real, p': real, q': real, x: real, z: real, v: real, w: real)
    ensures Times(Times(p, x) + Times(q, z), Times(p', v) + Times(q', w)) ==
            Times(Times(p, p'), Times(x, v)) + Times(Times(p, q'), Times(x, w)) +
            Times(Times(q, p'), Times(z, v)) + Times(Times(q, q'), Times(z, w))
  {
    hide Times;
    Distribute(Times(p, x), Times(q, z), Times(p', v), Times(q', w));
    Regroup(p, x, p', v);
    Regroup(p, x, q', w);
    Regroup(q, z, p', v);
    Regroup(q, z, q', w);
  }

  lemma Distribute(a: real, b: real, c: real, d: real)
    ensures Times(a + b, c + d) == Times(a, c) + Times(a, d) + Times(b, c) + Times(b, d)
  {
    assert (a + b) * (c + d) == a * (c + d) + b * (c + d);
  }

  lemma Regroup(p: real, x: real, p': real, v: real)
    ensures Times(Times(p, x), Times(p', v)) == Times(Times(p, p'), Times(x, v))
  {
    assert (p * x) * (p' * v) == (p * p') * (x * v);
  }

  lemma Collect(a: real, b: real, c: real, x: real)
    requires a + b == c
    ensures Times(a, x) + Times(b, x) == Times(c, x)
  {
    assert (a + b) * x == a * x + b * x;
  }

  lemma Units(x: real)
    ensures Times(1.0, x) == x == Times(x, 1.0) && Times(0.0, x) == 0.0 == Times(x, 0.0)
  {
  }

  /** Turning both vectors alike keeps their product. */
  lemma {:induction false} TurnKeepsDotTo(x: Vector, x': Vector, y: Vector, y': Vector, i: nat, m: Turn, n: nat)
    requires |x| == |y| && Turned(x, x', i, m) && Turned(y, y', i, m) && m.Orthogonal()
    requires n <= |x| && (n <= i || n >= i + 2)
    ensures DotTo(x', y', n) == DotTo(x, y, n)
  {
    hide Times, Turn.First, Turn.Second, Turn.Orthogonal;
    if n == i + 2 {
      TurnKeepsDotTo(x, x', y, y', i, m, i);
      TwoTerms(m, x[i], x[i + 1], y[i], y[i + 1]);
      assert DotTo(x', y', i + 1) == DotTo(x', y', i) + Term(x', y', i + 1);
      assert DotTo(x, y, i + 1) == DotTo(x, y, i) + Term(x, y, i + 1);
    } else if n > 0 {
      TurnKeepsDotTo(x, x', y, y', i, m, n - 1);
    }
  }

  lemma TurnKeepsDot(x: Vector, x': Vector, y: Vector, y': Vector, i: nat, m: Turn)
    requires |x| == |y| && Turned(x, x', i, m) && Turned(y, y', i, m) && m.Orthogonal()
    ensures Dot(x', y') == Dot(x, y)
  {
    TurnKeepsDotTo(x, x', y, y', i, m, |x|);
  }

  /** Turning commutes with adding a multiple. */
  lemma TurnOfSum(x: Vector, x': Vector, u: Vector, u': Vector, v: real, i: nat, m: Turn)
    requires |x| == |u| && Turned(x, x', i, m) && Turned(u, u', i, m)
    ensures Turned(Plus(x, Scaled(v, u)), Plus(x', Scaled(v, u')), i, m)
  {
    hide Times;
    ScaledAt(v, u, i);
    ScaledAt(v, u, i + 1);
    ScaledAt(v, u', i);
    ScaledAt(v, u', i + 1);
    TurnEntry(m.p, m.q, x[i], x[i + 1], u[i], u[i + 1], v);
    TurnEntry(m.r, m.t, x[i], x[i + 1], u[i], u[i + 1], v);
    var w, w' := Scaled(v, u), Scaled(v, u');
    forall k | 0 <= k < |x| && k != i && k != i + 1 ensures w'[k] == w[k] {
      ScaledAt(v, u, k);
      ScaledAt(v, u', k);
    }
  }

  lemma ScaledAt(v: real, u: Vector, i: nat)
    requires i < |u|
    ensures Scaled(v, u)[i] == Times(v, u[i])
  {
  }

  lemma TurnEntry(p: real, q: real, x: real, z: real, u: real, w: real, v: real)
    ensures Times(p, x) + Times(q, z) + Times(v, Times(p, u) + Times(q, w)) ==
            Times(p, x + Times(v, u)) + Times(q, z + Times(v, w))
  {
    hide Times;
    Distribute(v, 0.0, Times(p, u), Times(q, w));
    Distribute(p, 0.0, x, Times(v, u));
    Distribute(q, 0.0, z, Times(v, w));
    Reassociate(v, p, u);
    Reassociate(v, q, w);
    Reassociate(p, v, u);
    Reassociate(q, v, w);
    Commute(v, p);
    Commute(v, q);
    Units(x);
    Units(z);
    Units(Times(p, u));
    Units(Times(q, w));
    Units(Times(v, u));
    Units(Times(v, w));
  }

  /** All columns are turned alike. */
  ghost predicate AllTurned(a: Matrix, a': Matrix, n: nat, i: nat, m: Turn) {
    Square(a, n) && Square(a', n) && forall p :: 0 <= p < n ==> Turned(a[p], a'[p], i, m)
  }

  lemma TurnKeepsGram(a: Matrix, a': Matrix, b: Matrix, n: nat, i: nat, m: Turn)
    requires AllTurned(a, a', n, i, m) && m.Orthogonal() && SameGram(a, b, n)
    ensures SameGram(a', b, n)
  {
    hide Dot;
    forall p, q | 0 <= p < n && 0 <= q < n ensures Dot(a'[p], a'[q]) == Dot(b[p], b[q]) {
      TurnKeepsDot(a[p], a'[p], a[q], a'[q], i, m);
    }
  }

  lemma TurnOfRankOne(a: Matrix, a': Matrix, u: Vector, u': Vector, w: Vector, i: nat, m: Turn)
    requires |u| == |u'| == |w| && AllTurned(a, a', |u|, i, m) && Turned(u, u', i, m)
    ensures AllTurned(RankOne(a, u, w), RankOne(a', u', w), |u|, i, m)
  {
    hide Turned;
    forall p | 0 <= p < |u| ensures Turned(RankOne(a, u, w)[p], RankOne(a', u', w)[p], i, m) {
      TurnOfSum(a[p], a'[p], u, u', w[p], i, m);
    }
  }

  /** The rotation that turns (x, z) into (h, 0). */
  function Rotation(x: real, z: real, h: real): Turn
    requires h != 0.0
  {
    var c, s := x / h, -z / h;
    Turn(c, -s, s, c)
  }

  lemma RotationIsOrthogonal(x: real, z: real, h: real)
    requires h != 0.0 && Times(h, h) == Times(x, x) + Times(z, z)
    ensures Rotation(x, z, h).Orthogonal()
    ensures Rotation(x, z, h).First(x, z) == h && Rotation(x, z, h).Second(x, z) == 0.0
  {
    var c, s := x / h, -z / h;
    Quotient(x, h);
    Quotient(-z, h);
    SquarePositive(h, h);
    hide Times;
    UnitSum(c, c, s, s, h, h, x, x, z, z);
    Opposite(s, s);
    Opposite(s, c);
    Opposite(s, z);
  }

  lemma Quotient(a: real, h: real)
    requires h != 0.0
    ensures Times(a / h, h) == a
  {
  }

  lemma Opposite(x: real, y: real)
    ensures Times(-x, -y) == Times(x, y) == Times(y, x)
    ensures Times(-x, y) == -Times(x, y) == Times(x, -y) == Times(y, -x) == Times(-y, x)
  {
  }

  lemma UnitSum(c: real, c': real, s: real, s': real, h: real, h': real, x: real, x': real, z: real, z': real)
    requires Times(c, h) == x && Times(c', h') == x' && Times(s, h) == -z && Times(s', h') == -z'
    requires c == c' && s == s' && h == h' && x == x' && z == z'
    requires Times(h, h') == Times(x, x') + Times(z, z') && Times(h, h') != 0.0
    ensures Times(c, c') + Times(s, s') == 1.0
    ensures Times(c', x) - Times(s', z) == h
    ensures Times(s', x) + Times(c', z) == 0.0
  {
    hide Times;
    var e := Times(c, c') + Times(s, s');
    Regroup(c, h, c', h');
    Regroup(s, h, s', h');
    Opposite(z, z');
    Collect(Times(c, c'), Times(s, s'), e, Times(h, h'));
    CancelFactor(e, Times(h, h'));
    Units(h);
    Reassociate(c', c, h);
    Reassociate(s', s, h);
    Reassociate(s', c, h);
    Reassociate(c', s, h);
    Opposite(s', z);
    Opposite(c', z);
    Collect(Times(c', c), Times(s', s), 1.0, h);
    Commute(c, c');
    Commute(s, s');
    Commute(c, s);
  }

  lemma Reassociate(a: real, b: real, c: real)
    ensures Times(a, Times(b, c)) == Times(Times(a, b), c)
  {
    assert a * (b * c) == (a * b) * c;
  }

  lemma Commute(a: real, b: real)
    ensures Times(a, b) == Times(b, a)
  {
  }

  lemma CancelFactor(a: real, d: real)
    requires d != 0.0 && Times(a, d) == d
    ensures a == 1.0
  {
    assert (a - 1.0) * d == a * d - d;
    hide Times;
    if a > 1.0 {
      NotZero(a - 1.0, d);
    } else if a < 1.0 {
      NotZero(1.0 - a, d);
      Opposite(1.0 - a, d);
    }
  }

  lemma NotZero(e: real, d: real)
    requires e > 0.0 && d != 0.0
    ensures Times(e, d) != 0.0
  {
    hide Times;
    if d > 0.0 {
      TimesPositive(e, d);
    } else {
      TimesPositive(e, -d);
      Opposite(e, d);
    }
  }

  // ----- the matrix in memory -----

  ghost function Col(a: array2<real>, p: int): (v: Vector)
    requires 0 <= p < a.Length1
    reads a
    ensures |v| == a.Length0 && forall i :: 0 <= i < |v| ==> v[i] == a[i, p]
  {
    seq(a.Length0, i requires 0 <= i < a.Length0 reads a => a[i, p])
  }

  ghost function Cols(a: array2<real>): (m: Matrix)
    requires a.Length0 == a.Length1
    reads a
    ensures Square(m, a.Length0) && forall p :: 0 <= p < a.Length0 ==> m[p] == Col(a, p)
  {
    seq(a.Length1, p requires 0 <= p < a.Length1 reads a => Col(a, p))
  }

  /** Zero below the diagonal, but for the subdiagonal entries of the rows lo + 1, ..., hi. */
  ghost predicate Hessenberg(a: array2<real>, lo: int, hi: int)
    reads a
  {
    a.Length0 == a.Length1 &&
    forall r, p :: 0 <= p < r < a.Length0 && !(p == r - 1 && lo < r <= hi) ==> a[r, p] == 0.0
  }

  /** Rows i and i + 1 are turned, from column i on. */
  twostate predicate RowsTurned(a: array2<real>, i: nat, m: Turn)
    reads a
  {
    && i + 1 < a.Length0 == a.Length1
    && (forall p :: i <= p < a.Length1 ==>
      a[i, p] == m.First(old(a[i, p]), old(a[i + 1, p])) && a[i + 1, p] == m.Second(old(a[i, p]), old(a[i + 1, p])))
    && (forall r, p :: 0 <= r < a.Length0 && 0 <= p < a.Length1 && (p < i || (r != i && r != i + 1)) ==>
      a[r, p] == old(a[r, p]))
  }

  /** qraux1: exchanges rows i and i + 1. */
  method Qraux1(a: array2<real>, i: nat)
    requires i + 1 < a.Length0 == a.Length1
    modifies a
    ensures RowsTurned(a, i, EXCHANGE)
  {
    hide Times;
    Units(0.0);
    var p := i;
    while p < a.Length1
      invariant i <= p <= a.Length1
      invariant forall q :: i <= q < p ==> a[i, q] == old(a[i + 1, q]) && a[i + 1, q] == old(a[i, q])
      invariant forall r, q :: 0 <= r < a.Length0 && 0 <= q < a.Length1 &&
                                    (q < i || q >= p || (r != i && r != i + 1)) ==>
        a[r, q] == old(a[r, q])
    {
      var tmp := a[i, p];
      a[i, p] := a[i + 1, p];
      a[i + 1, p] := tmp;
      p := p + 1;
    }
    forall q | i <= q < a.Length1
      ensures a[i, q] == EXCHANGE.First(old(a[i, q]), old(a[i + 1, q]))
      ensures a[i + 1, q] == EXCHANGE.Second(old(a[i, q]), old(a[i + 1, q]))
    {
      Units(a[i, q]);
      Units(a[i + 1, q]);
    }
  }

  /** qraux2: rotates rows i and i + 1 by the rotation that is given by (x, -z). */
  method Qraux2(a: array2<real>, i: nat, x: real, b: real, root: real -> real)
    requires i + 1 < a.Length0 == a.Length1 && IsRoot(root) && x != 0.0
    modifies a
    ensures Hypot(x, b, root) != 0.0
    ensures RowsTurned(a, i, Rotation(x, -b, Hypot(x, b, root)))
  {
    HypotNotZero(x, b, root);
    var den := Hypot(x, b, root);
    var c := x / den;
    var s := b / den;
    hide Times, Hypot;
    var p := i;
    while p < a.Length1
      invariant i <= p <= a.Length1
      invariant forall q :: i <= q < p ==>
        a[i, q] == Times(c, old(a[i, q])) + Times(-s, old(a[i + 1, q])) &&
        a[i + 1, q] == Times(s, old(a[i, q])) + Times(c, old(a[i + 1, q]))
      invariant forall r, q :: 0 <= r < a.Length0 && 0 <= q < a.Length1 &&
                                    (q < i || q >= p || (r != i && r != i + 1)) ==>
        a[r, q] == old(a[r, q])
    {
      var y := a[i, p];
      var z := a[i + 1, p];
      RotatedPair(c, s, y, z);
      a[i, p] := c * y - s * z;
      a[i + 1, p] := s * y + c * z;
      p := p + 1;
    }
    assert b == -(-b);
  }

  lemma RotatedPair(c: real, s: real, y: real, z: real)
    ensures c * y - s * z == Times(c, y) + Times(-s, z)
    ensures s * y + c * z == Times(s, y) + Times(c, z)
  {
  }

  function Hypot(x: real, b: real, root: real -> real): real {
    root(Times(x, x) + Times(b, b))
  }

  lemma HypotNotZero(x: real, b: real, root: real -> real)
    requires IsRoot(root) && x != 0.0
    ensures Hypot(x, b, root) > 0.0
    ensures Times(Hypot(x, b, root), Hypot(x, b, root)) == Times(x, x) + Times(b, b)
  {
    SquarePositive(x, x);
    SquarePositive(b, b);
    var h := Hypot(x, b, root);
    hide Times;
    if h == 0.0 {
      Units(h);
    }
  }

  /** A column that is zero in rows i and i + 1 is turned by staying the same. */
  lemma ZerosTurned(x: Vector, i: nat, m: Turn)
    requires i + 1 < |x| && x[i] == 0.0 && x[i + 1] == 0.0
    ensures Turned(x, x, i, m)
  {
    hide Times;
    Units(m.p);
    Units(m.q);
    Units(m.r);
    Units(m.t);
  }

  lemma ExchangeIsOrthogonal()
    ensures EXCHANGE.Orthogonal()
  {
  }

  /** u up to entry hi, and zero from there on. */
  function Head(u: seq<real>, hi: nat): (h: Vector)
    ensures |h| == |u| && forall r :: 0 <= r < |u| ==> h[r] == if r <= hi then u[r] else 0.0
  {
    seq(|u|, r requires 0 <= r < |u| => if r <= hi then u[r] else 0.0)
  }

  /** Turns rows i and i + 1 so that the entries x and z beside them become h and 0. */
  method TurnRows(a: array2<real>, i: nat, x: real, z: real, root: real -> real) returns (h: real, ghost m: Turn)
    requires IsRoot(root) && i + 1 < a.Length0 == a.Length1
    modifies a
    ensures m.Orthogonal() && RowsTurned(a, i, m) && m.First(x, z) == h && m.Second(x, z) == 0.0
  {
    hide Times, Turn.Orthogonal, Hypot;
    if x == 0.0 {
      m := EXCHANGE;
      ExchangeIsOrthogonal();
      Units(x);
      Units(z);
      Qraux1(a, i);
      h := z;
    } else {
      HypotNotZero(x, -z, root);
      Opposite(z, z);
      h := Hypot(x, -z, root);
      m := Rotation(x, z, h);
      RotationIsOrthogonal(x, z, h);
      Qraux2(a, i, x, -z, root);
    }
  }

  /** If both rows are zero left of column i, the whole matrix is turned. */
  method TurnMatrix(a: array2<real>, i: nat, x: real, z: real, root: real -> real) returns (h: real, ghost m: Turn)
    requires IsRoot(root) && i + 1 < a.Length0 == a.Length1
    requires forall p :: 0 <= p < i ==> a[i, p] == 0.0 && a[i + 1, p] == 0.0
    modifies a
    ensures m.Orthogonal() && RowsTurned(a, i, m) && m.First(x, z) == h && m.Second(x, z) == 0.0
    ensures AllTurned(old(Cols(a)), Cols(a), a.Length0, i, m)
  {
    hide Turn.Orthogonal, Turn.First, Turn.Second;
    ghost var before := Cols(a);
    h, m := TurnRows(a, i, x, z, root);
    forall p | 0 <= p < a.Length1 ensures Turned(before[p], Cols(a)[p], i, m) {
      assert before[p] == old(Col(a, p)) && Cols(a)[p] == Col(a, p);
      if p < i {
        ZerosTurned(before[p], i, m);
        assert Col(a, p) == before[p];
      }
    }
  }

  /** One step of the first pass: entry i + 1 of u is turned into entry i. */
  method FoldUp(a: array2<real>, u: array<real>, i: nat, root: real -> real, ghost k: int) returns (ghost m: Turn)
    requires IsRoot(root) && i + 1 < a.Length0 == u.Length && i + 1 <= k && Hessenberg(a, i + 1, k)
    modifies a, u
    ensures Hessenberg(a, i, k) && m.Orthogonal() && AllTurned(old(Cols(a)), Cols(a), u.Length, i, m)
    ensures Turned(old(Head(u[..], i + 1)), Head(u[..], i), i, m)
    ensures forall r :: 0 <= r < i ==> u[r] == old(u[r])
  {
    hide Turn.Orthogonal, Turn.First, Turn.Second, Head;
    ghost var u0 := u[..];
    var h;
    h, m := TurnMatrix(a, i, u[i], u[i + 1], root);
    u[i] := h;
    HeadTurned(u0, u[..], i, m);
  }

  lemma HeadTurned(u: seq<real>, u': seq<real>, i: nat, m: Turn)
    requires i + 1 < |u| && u' == u[i := m.First(u[i], u[i + 1])] && m.Second(u[i], u[i + 1]) == 0.0
    ensures Turned(Head(u, i + 1), Head(u', i), i, m)
  {
  }

  /** One step of the second pass: the subdiagonal entry of row i + 1 becomes zero. */
  method Annihilate(a: array2<real>, i: nat, root: real -> real, ghost k: int) returns (ghost m: Turn)
    requires IsRoot(root) && i + 1 < a.Length0 && i < k && Hessenberg(a, i, k)
    modifies a
    ensures Hessenberg(a, i + 1, k) && m.Orthogonal() && AllTurned(old(Cols(a)), Cols(a), a.Length0, i, m)
  {
    hide Turn.Orthogonal;
    var h;
    h, m := TurnMatrix(a, i, a[i, i], a[i + 1, i], root);
  }

  /** r <- r + (u[0] e1) v'. */
  method AddToFirstRow(a: array2<real>, u: array<real>, v: array<real>, ghost k: int)
    requires 1 <= a.Length0 == u.Length == v.Length && Hessenberg(a, 0, k)
    modifies a
    ensures Hessenberg(a, 0, k)
    ensures Cols(a) == RankOne(old(Cols(a)), Head(u[..], 0), v[..])
  {
    var j := 0;
    while j < v.Length
      invariant 0 <= j <= v.Length
      invariant forall p :: 0 <= p < j ==> a[0, p] == old(a[0, p]) + Times(v[p], u[0])
      invariant forall p :: j <= p < v.Length ==> a[0, p] == old(a[0, p])
      invariant forall r, p :: 1 <= r < a.Length0 && 0 <= p < a.Length1 ==> a[r, p] == old(a[r, p])
    {
      a[0, j] := a[0, j] + u[0] * v[j];
      j := j + 1;
    }
    hide Times;
    forall p | 0 <= p < v.Length ensures Cols(a)[p] == RankOne(old(Cols(a)), Head(u[..], 0), v[..])[p] {
      FirstRowOnly(old(Col(a, p)), Col(a, p), u[..], v[p]);
    }
  }

  lemma FirstRowOnly(x: Vector, y: Vector, u: seq<real>, w: real)
    requires 1 <= |x| == |y| == |u| && y[0] == x[0] + Times(w, u[0]) && forall r :: 1 <= r < |x| ==> y[r] == x[r]
    ensures y == Plus(x, Scaled(w, Head(u, 0)))
  {
    hide Times;
    var h := Scaled(w, Head(u, 0));
    forall r | 0 <= r < |x| ensures y[r] == x[r] + h[r] {
      ScaledAt(w, Head(u, 0), r);
      Units(w);
    }
  }

  /** qrupdt: a becomes triangular again, with the same products of columns as r + u v'. */
  method Qrupdt(a: array2<real>, u: array<real>, v: array<real>, root: real -> real)
    requires IsRoot(root) && 1 <= a.Length0 == u.Length == v.Length && u != v && Hessenberg(a, 0, 0)
    modifies a, u
    ensures Hessenberg(a, 0, 0)
    ensures SameGram(Cols(a), RankOne(old(Cols(a)), old(u[..]), v[..]), v.Length)
  {
    ghost var target := RankOne(Cols(a), u[..], v[..]);
    var k := LastNonZero(u);
    FirstPass(a, u, v[..], k, root, target);
    AddToFirstRow(a, u, v, k);
    SecondPass(a, k, root, target);
  }

  /** The index of the last entry that is not zero, or 0. */
  method LastNonZero(u: array<real>) returns (k: nat)
    requires u.Length >= 1
    ensures k < u.Length && u[..] == Head(u[..], k)
  {
    k := u.Length - 1;
    while k > 0 && u[k] == 0.0
      invariant 0 <= k < u.Length && forall r :: k < r < u.Length ==> u[r] == 0.0
    {
      k := k - 1;
    }
  }

  /** The first pass: r + u v' becomes an upper Hessenberg matrix plus a change of the first row. */
  method FirstPass(a: array2<real>, u: array<real>, ghost v: Vector, k: nat, root: real -> real, ghost target: Matrix)
    requires IsRoot(root) && k < a.Length0 == u.Length == |v| && Hessenberg(a, 0, 0)
    requires u[..] == Head(u[..], k) && target == RankOne(Cols(a), u[..], v)
    modifies a, u
    ensures Hessenberg(a, 0, k)
    ensures SameGram(RankOne(Cols(a), Head(u[..], 0), v), target, |v|)
  {
    hide SameGram, Head, AllTurned, Turned, RankOne, Times, Turn.Orthogonal;
    GramOfSelf(target, |v|);
    var ii := k;
    while ii > 0
      invariant 0 <= ii <= k && Hessenberg(a, ii, k)
      invariant SameGram(RankOne(Cols(a), Head(u[..], ii), v), target, |v|)
    {
      var i := ii - 1;
      ghost var before, head := Cols(a), Head(u[..], ii);
      ghost var m := FoldUp(a, u, i, root, k);
      TurnOfRankOne(before, Cols(a), head, Head(u[..], i), v, i, m);
      TurnKeepsGram(RankOne(before, head, v), RankOne(Cols(a), Head(u[..], i), v), target, |v|, i, m);
      ii := i;
    }
  }

  lemma GramOfSelf(a: Matrix, n: nat)
    requires Square(a, n)
    ensures SameGram(a, a, n)
  {
  }

  /** The second pass: the Hessenberg matrix becomes triangular. */
  method SecondPass(a: array2<real>, k: nat, root: real -> real, ghost target: Matrix)
    requires IsRoot(root) && k < a.Length0 && Hessenberg(a, 0, k) && SameGram(Cols(a), target, a.Length0)
    modifies a
    ensures Hessenberg(a, 0, 0) && SameGram(Cols(a), target, a.Length0)
  {
    hide SameGram, AllTurned, Times, Turn.Orthogonal;
    var i := 0;
    while i < k
      invariant 0 <= i <= k && Hessenberg(a, i, k) && SameGram(Cols(a), target, a.Length0)
    {
      ghost var before := Cols(a);
      ghost var m := Annihilate(a, i, root, k);
      TurnKeepsGram(before, Cols(a), target, a.Length0, i, m);
      i := i + 1;
    }
  }
}
