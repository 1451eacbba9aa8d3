/** The output buffer of the console: a bounded window on the log of everything written. */
module ConsoleBuffer {
  const BELL := 7
  const BACK := 8
  const TAB := 9
  const NEWLINE := 10

  type Line = seq<int>

  // ----- the log -----

  /** What one character does to a text of lines; the last line is the current one. */
  function Write(lines: seq<Line>, c: int): (r: seq<Line>)
    requires lines != []
    ensures r != []
  {
    var front, last := lines[..|lines| - 1], lines[|lines| - 1];
    if c == BELL then lines
    else if c == BACK then (if last == [] then lines else front + [last[..|last| - 1]])
    else if c == NEWLINE then lines + [[]]
    else front + [last + [c]]
  }

  function WriteAll(lines: seq<Line>, text: seq<int>): (r: seq<Line>)
    requires lines != []
    ensures r != []
    decreases text
  {
    if text == [] then lines else WriteAll(Write(lines, text[0]), text[1..])
  }

  // ----- the window -----

  /** The places taken by lines, with a terminator between any two. */
  function Used(lines: seq<Line>): nat {
    if lines == [] then 0
    else if |lines| == 1 then |lines[0]|
    else |lines[0]| + 1 + Used(lines[1..])
  }

  /** The lines without the first n; a window that loses all its lines begins with an empty one. */
  function Dropped(lines: seq<Line>, n: nat): (r: seq<Line>)
    ensures r != []
  {
    if n >= |lines| then [[]] else lines[n..]
  }

  datatype Limits = Limits(dim: nat, ms: nat, shift: nat)

  predicate Usable(m: Limits) {
    m.dim >= 1 && m.ms >= 2 && m.shift >= 1
  }

  predicate Fits(lines: seq<Line>, size: nat, m: Limits) {
    Used(lines) + size <= m.dim && |lines| < m.ms
  }

  /** Drops lines from the front until size more places and one more line fit. */
  function Room(lines: seq<Line>, size: nat, m: Limits): (r: seq<Line>)
    requires lines != [] && Usable(m) && size <= m.dim
    ensures r != [] && Fits(r, size, m)
    decreases |lines|, Used(lines)
  {
    if Fits(lines, size, m) then lines else Room(Dropped(lines, m.shift), size, m)
  }

  predicate NeedsRoom(c: int) {
    c != BELL && c != BACK
  }

  /** What one character does to the window. */
  function Buffered(lines: seq<Line>, c: int, m: Limits): (r: seq<Line>)
    requires lines != [] && Usable(m)
    ensures r != []
  {
    Write(if NeedsRoom(c) then Room(lines, 1, m) else lines, c)
  }

  function BufferedAll(lines: seq<Line>, text: seq<int>, m: Limits): (r: seq<Line>)
    requires lines != [] && Usable(m)
    ensures r != []
    decreases text
  {
    if text == [] then lines else BufferedAll(Buffered(lines, text[0], m), text[1..], m)
  }

  // ----- the window shows the end of the log -----

  predicate EndOf(l: Line, full: Line) {
    |l| <= |full| && forall i :: 0 <= i < |l| ==> l[i] == full[|full| - |l| + i]
  }

  /** The window holds the last lines of the log, of which the first may be cut at its beginning. */
  ghost predicate Retains(lines: seq<Line>, log: seq<Line>) {
    && 0 < |lines| <= |log|
    && EndOf(lines[0], log[|log| - |lines|])
    && forall k :: 1 <= k < |lines| ==> lines[k] == log[|log| - |lines| + k]
  }

  lemma EndOfMore(l: Line, full: Line, c: int)
    requires EndOf(l, full)
    ensures EndOf(l + [c], full + [c])
    ensures l != [] ==> full != [] && EndOf(l[..|l| - 1], full[..|full| - 1])
    ensures l == [] && full != [] ==> EndOf(l, full[..|full| - 1])
  {
  }

  lemma WriteRetains(lines: seq<Line>, log: seq<Line>, c: int)
    requires Retains(lines, log)
    ensures Retains(Write(lines, c), Write(log, c))
  {
    EndOfLast(lines, log);
    var last, full := lines[|lines| - 1], log[|log| - 1];
    EndOfMore(last, full, c);
    hide EndOf, Retains;
    if c == BELL {
    } else if c == BACK {
      if last != [] {
        LastReplaced(lines, log, last[..|last| - 1], full[..|full| - 1]);
      } else if full != [] {
        LastReplaced(lines, log, last, full[..|full| - 1]);
        assert lines[..|lines| - 1] + [last] == lines;
      }
    } else if c == NEWLINE {
      NewLineRetained(lines, log);
    } else {
      LastReplaced(lines, log, last + [c], full + [c]);
    }
  }

  lemma EndOfLast(lines: seq<Line>, log: seq<Line>)
    requires Retains(lines, log)
    ensures 0 < |lines| <= |log| && EndOf(lines[|lines| - 1], log[|log| - 1])
    ensures |lines| > 1 ==> lines[|lines| - 1] == log[|log| - 1]
  {
  }

  lemma NewLineRetained(lines: seq<Line>, log: seq<Line>)
    requires Retains(lines, log)
    ensures Retains(lines + [[]], log + [[]])
  {
    hide EndOf;
  }

  lemma LastReplaced(lines: seq<Line>, log: seq<Line>, l: Line, full: Line)
    requires Retains(lines, log) && EndOf(l, full) && (|lines| > 1 ==> l == full)
    ensures Retains(lines[..|lines| - 1] + [l], log[..|log| - 1] + [full])
  {
    hide EndOf;
  }

  lemma DroppedRetains(lines: seq<Line>, log: seq<Line>, n: nat)
    requires Retains(lines, log)
    ensures Retains(Dropped(lines, n), log)
  {
  }

  lemma {:induction false} RoomRetains(lines: seq<Line>, log: seq<Line>, size: nat, m: Limits)
    requires Retains(lines, log) && Usable(m) && size <= m.dim
    ensures Retains(Room(lines, size, m), log)
    decreases |lines|, Used(lines)
  {
    if !Fits(lines, size, m) {
      DroppedRetains(lines, log, m.shift);
      RoomRetains(Dropped(lines, m.shift), log, size, m);
    }
  }

  /** Over any text the window goes on showing the end of the log. */
  lemma {:induction false} BufferedRetains(lines: seq<Line>, log: seq<Line>, text: seq<int>, m: Limits)
    requires Retains(lines, log) && Usable(m)
    ensures Retains(BufferedAll(lines, text, m), WriteAll(log, text))
    decreases text
  {
    if text != [] {
      var roomy := if NeedsRoom(text[0]) then Room(lines, 1, m) else lines;
      if NeedsRoom(text[0]) {
        RoomRetains(lines, log, 1, m);
      }
      WriteRetains(roomy, log, text[0]);
      BufferedRetains(Buffered(lines, text[0], m), Write(log, text[0]), text[1..], m);
    }
  }

  lemma DroppedTwice(lines: seq<Line>, a: nat, b: nat)
    requires b >= 1
    ensures Dropped(Dropped(lines, a), b) == Dropped(lines, a + b)
  {
  }

  /** No more lines go than the shifts needed: n of them are the first number that makes enough room. */
  lemma {:induction false} RoomIsLeast(lines: seq<Line>, size: nat, m: Limits) returns (n: nat)
    requires lines != [] && Usable(m) && size <= m.dim
    ensures Room(lines, size, m) == Dropped(lines, n * m.shift)
    ensures forall j: nat :: j < n ==> Crowded(lines, size, m, j)
    decreases |lines|, Used(lines)
  {
    NoneDropped(lines, size, m);
    if Fits(lines, size, m) {
      n := 0;
    } else {
      var rest := Dropped(lines, m.shift);
      var k := RoomIsLeast(rest, size, m);
      n := k + 1;
      hide Crowded;
      forall j: nat | j < n ensures Crowded(lines, size, m, j) {
        if j > 0 {
          CrowdedFurther(lines, size, m, j - 1);
        }
      }
      DroppedShifts(lines, m.shift, k);
    }
  }

  /** After j shifts there is still not enough room. */
  predicate Crowded(lines: seq<Line>, size: nat, m: Limits, j: nat) {
    !Fits(Dropped(lines, j * m.shift), size, m)
  }

  lemma NoneDropped(lines: seq<Line>, size: nat, m: Limits)
    requires lines != []
    ensures Dropped(lines, 0 * m.shift) == lines && (Crowded(lines, size, m, 0) <==> !Fits(lines, size, m))
  {
  }

  lemma CrowdedFurther(lines: seq<Line>, size: nat, m: Limits, j: nat)
    requires lines != [] && m.shift >= 1
    ensures Crowded(Dropped(lines, m.shift), size, m, j) == Crowded(lines, size, m, j + 1)
  {
    DroppedShifts(lines, m.shift, j);
  }

  lemma DroppedShifts(lines: seq<Line>, shift: nat, j: nat)
    requires shift >= 1 && lines != []
    ensures Dropped(Dropped(lines, shift), j * shift) == Dropped(lines, (j + 1) * shift)
  {
    assert (j + 1) * shift == j * shift + shift;
    if j == 0 {
      assert 0 * shift == 0;
    } else {
      assert j * shift >= 1;
      DroppedTwice(lines, shift, j * shift);
    }
  }

  // ----- the window in the arrays -----

  const NUL := 0

  /** The lines stand one behind the other from the first place on, with terminators between them. */
  ghost predicate Stored(b: seq<int>, s: seq<int>, ns: int, free: int, lines: seq<Line>) {
    && 0 < ns == |lines| <= |s| && s[0] == 0 && 0 <= free < |b|
    && (forall k :: 0 <= k < ns ==> Stands(b, s, free, lines, k))
    && (forall k :: 0 <= k < ns - 1 ==> Joined(b, s, free, lines, k))
    && free == s[ns - 1] + |lines[ns - 1]|
  }

  /** Line k stands before the first free place. */
  ghost predicate Stands(b: seq<int>, s: seq<int>, free: int, lines: seq<Line>, k: int)
    requires 0 <= k < |lines| <= |s|
  {
    0 <= s[k] && s[k] + |lines[k]| <= free < |b| && LineAt(b, s[k], lines[k])
  }

  /** A terminator and the start of the next line follow line k. */
  ghost predicate Joined(b: seq<int>, s: seq<int>, free: int, lines: seq<Line>, k: int)
    requires 0 <= k < |lines| - 1 && |lines| <= |s|
  {
    var end := s[k] + |lines[k]|;
    0 <= end < free <= |b| && b[end] == NUL && s[k + 1] == end + 1
  }

  ghost predicate LineAt(b: seq<int>, at: int, l: Line) {
    && 0 <= at && at + |l| <= |b|
    && forall i :: 0 <= i < |l| ==> b[at + i] == l[i] && l[i] != NUL
  }

  /** The first free place follows the lines. */
  lemma {:induction false} FreeIsUsed(b: seq<int>, s: seq<int>, ns: int, free: int, lines: seq<Line>, k: nat)
    requires Stored(b, s, ns, free, lines) && k < ns
    ensures free == s[k] + Used(lines[k..])
    decreases ns - k
  {
    if k < ns - 1 {
      FreeIsUsed(b, s, ns, free, lines, k + 1);
      assert lines[k..][1..] == lines[k + 1..];
      assert Joined(b, s, free, lines, k);
    }
  }

  lemma {:induction false} StartsGrow(b: seq<int>, s: seq<int>, ns: int, free: int, lines: seq<Line>, j: nat, k: nat)
    requires Stored(b, s, ns, free, lines) && j <= k < ns
    ensures s[j] <= s[k]
    decreases k - j
  {
    if j < k {
      StartsGrow(b, s, ns, free, lines, j + 1, k);
      assert Joined(b, s, free, lines, j);
    }
  }

  /** Everything from line shift on stands in b' and s' as in b and s, but at the front; the rest of b' is as in b. */
  ghost predicate MovedDown(b: seq<int>, s: seq<int>, b': seq<int>, s': seq<int>, ns: int, shift: int)
    requires 0 <= shift < ns <= |s|
  {
    && |b'| == |b| && |s'| == |s| && 0 <= s[shift] < |b|
    && (forall i {:trigger b'[i]} :: 0 <= i < |b| - 1 - s[shift] ==> b'[i] == b[s[shift] + i])
    && (forall i {:trigger b'[i]} :: |b| - 1 - s[shift] <= i < |b| ==> b'[i] == b[i])
    && (forall k {:trigger s'[k]} :: 0 <= k < ns - shift ==> s'[k] == s[shift + k] - s[shift])
  }

  lemma ShiftStands(b: seq<int>, s: seq<int>, b': seq<int>, s': seq<int>, ns: int, free: int, lines: seq<Line>,
                    shift: nat, k: nat)
    requires Stored(b, s, ns, free, lines) && shift + k < ns && MovedDown(b, s, b', s', ns, shift)
    ensures Stands(b', s', free - s[shift], lines[shift..], k)
  {
    StartsGrow(b, s, ns, free, lines, shift, shift + k);
    assert Stands(b, s, free, lines, shift + k);
    var l, at := lines[shift + k], s'[k];
    assert lines[shift..][k] == l && at == s[shift + k] - s[shift];
    forall i | 0 <= i < |l| ensures b'[at + i] == l[i] && l[i] != NUL {
      assert b[s[shift + k] + i] == l[i] && s[shift] + (at + i) == s[shift + k] + i;
    }
  }

  lemma ShiftJoined(b: seq<int>, s: seq<int>, b': seq<int>, s': seq<int>, ns: int, free: int, lines: seq<Line>,
                    shift: nat, k: nat)
    requires Stored(b, s, ns, free, lines) && shift + k < ns - 1 && MovedDown(b, s, b', s', ns, shift)
    ensures Joined(b', s', free - s[shift], lines[shift..], k)
  {
    StartsGrow(b, s, ns, free, lines, shift, shift + k);
    assert Joined(b, s, free, lines, shift + k);
    var end := s'[k] + |lines[shift + k]|;
    assert s'[k] == s[shift + k] - s[shift];
    assert s'[k + 1] == s[shift + (k + 1)] - s[shift];
    assert shift + (k + 1) == shift + k + 1 && 0 <= end < |b| - 1 - s[shift];
    assert b'[end] == b[s[shift] + end];
  }

  /** Lines, starts and free place moved down together. */
  lemma ShiftKeeps(b: seq<int>, s: seq<int>, b': seq<int>, s': seq<int>, ns: int, free: int, lines: seq<Line>,
                   shift: nat)
    requires Stored(b, s, ns, free, lines) && shift < ns && MovedDown(b, s, b', s', ns, shift)
    ensures Stored(b', s', ns - shift, free - s[shift], lines[shift..])
  {
    var rest, free', ns' := lines[shift..], free - s[shift], ns - shift;
    forall k | 0 <= k < ns' ensures Stands(b', s', free', rest, k) {
      ShiftStands(b, s, b', s', ns, free, lines, shift, k);
    }
    forall k | 0 <= k < ns' - 1 ensures Joined(b', s', free', rest, k) {
      ShiftJoined(b, s, b', s', ns, free, lines, shift, k);
    }
    StartsGrow(b, s, ns, free, lines, shift, ns - 1);
    hide Stands, Joined;
    assert s'[ns' - 1] == s[shift + (ns' - 1)] - s[shift] && rest[ns' - 1] == lines[ns - 1];
    assert s'[0] == s[shift + 0] - s[shift];
  }

  /** Only what stands before the first free place matters. */
  lemma StoredBelow(b: seq<int>, s: seq<int>, b': seq<int>, s': seq<int>, ns: int, free: int, lines: seq<Line>)
    requires Stored(b, s, ns, free, lines) && |b'| == |b| && |s'| == |s|
    requires (forall i :: 0 <= i < free ==> b'[i] == b[i]) && (forall k :: 0 <= k < ns ==> s'[k] == s[k])
    ensures Stored(b', s', ns, free, lines)
  {
    forall k | 0 <= k < ns ensures Stands(b', s', free, lines, k) {
      assert Stands(b, s, free, lines, k);
    }
    forall k | 0 <= k < ns - 1 ensures Joined(b', s', free, lines, k) {
      assert Joined(b, s, free, lines, k);
    }
  }

  lemma StoredNewline(b: seq<int>, s: seq<int>, ns: int, free: int, lines: seq<Line>)
    requires Stored(b, s, ns, free, lines) && ns < |s| && free < |b| - 1
    ensures Stored(b[free := NUL], s[ns := free + 1], ns + 1, free + 1, Write(lines, NEWLINE))
  {
    var b', s', lines', free' := b[free := NUL], s[ns := free + 1], lines + [[]], free + 1;
    StoredBelow(b, s, b', s', ns, free, lines);
    forall k | 0 <= k <= ns ensures Stands(b', s', free', lines', k) {
      assert k < ns ==> lines'[k] == lines[k] && Stands(b', s', free, lines, k);
    }
    forall k | 0 <= k < ns ensures Joined(b', s', free', lines', k) {
      assert k < ns - 1 ==> Joined(b', s', free, lines, k);
    }
  }

  /** The current line may be longer or shorter. */
  lemma StoredLast(b: seq<int>, s: seq<int>, ns: int, free: int, lines: seq<Line>, free': int, last: Line)
    requires Stored(b, s, ns, free, lines) && free' == s[ns - 1] + |last| < |b| && LineAt(b, s[ns - 1], last)
    ensures Stored(b, s, ns, free', lines[..ns - 1] + [last])
  {
    var lines' := lines[..ns - 1] + [last];
    forall k | 0 <= k < ns - 1 ensures Joined(b, s, free', lines', k) {
      assert Joined(b, s, free, lines, k);
      StartsGrow(b, s, ns, free, lines, k + 1, ns - 1);
    }
    forall k | 0 <= k < ns ensures Stands(b, s, free', lines', k) {
      assert Stands(b, s, free, lines, k);
      assert k < ns - 1 ==> lines'[k] == lines[k] && Joined(b, s, free', lines', k);
    }
  }

  lemma StoredPut(b: seq<int>, s: seq<int>, ns: int, free: int, lines: seq<Line>, c: int)
    requires Stored(b, s, ns, free, lines) && free < |b| - 1 && c != NUL && NeedsRoom(c) && c != NEWLINE
    ensures Stored(b[free := c], s, ns, free + 1, Write(lines, c))
  {
    var b', last := b[free := c], lines[ns - 1] + [c];
    StoredBelow(b, s, b', s, ns, free, lines);
    assert Stands(b', s, free, lines, ns - 1);
    StoredLast(b', s, ns, free, lines, free + 1, last);
  }

  lemma StoredBack(b: seq<int>, s: seq<int>, ns: int, free: int, lines: seq<Line>)
    requires Stored(b, s, ns, free, lines) && lines[ns - 1] != []
    ensures Stored(b, s, ns, free - 1, Write(lines, BACK))
  {
    var last := lines[ns - 1];
    assert Stands(b, s, free, lines, ns - 1);
    StoredLast(b, s, ns, free, lines, free - 1, last[..|last| - 1]);
  }

  /** Moves count elements from place m on to the front. */
  method MoveDown(a: array<int>, m: nat, count: nat)
    requires m + count <= a.Length
    modifies a
    ensures forall i :: 0 <= i < count ==> a[i] == old(a[m + i])
    ensures forall i :: count <= i < a.Length ==> a[i] == old(a[i])
  {
    var i := 0;
    while i < count
      invariant 0 <= i <= count
      invariant forall k :: 0 <= k < i ==> a[k] == old(a[m + k])
      invariant forall k :: i <= k < a.Length ==> a[k] == old(a[k])
    {
      a[i] := a[m + i];
      i := i + 1;
    }
  }

  /** Moves the starts of the lines from shift on to the front, m lower. */
  method MoveStarts(s: array<int>, shift: nat, ns: nat, m: int)
    requires shift <= ns <= s.Length
    modifies s
    ensures forall k :: 0 <= k < ns - shift ==> s[k] == old(s[shift + k]) - m
  {
    var i := shift;
    while i < ns
      invariant shift <= i <= ns
      invariant forall k :: 0 <= k < i - shift ==> s[k] == old(s[shift + k]) - m
      invariant forall k :: i - shift <= k < s.Length ==> s[k] == old(s[k])
    {
      s[i - shift] := s[i] - m;
      i := i + 1;
    }
  }

  /**
   * Where the character comes from that stands behind the current line after the lines from place m on
   * have been moved to the front: the very last place is not moved.
   */
  function Behind(free: int, dim: int, m: int): int {
    if free < dim then free else dim - m
  }

  /** Moves the lines from shift on to the front. */
  method MoveLines(b: array<int>, s: array<int>, shift: nat, ns: int, free: int, ghost lines: seq<Line>)
    returns (mshift: nat)
    requires b != s && Stored(b[..], s[..], ns, free, lines) && shift < ns
    modifies b, s
    ensures mshift == old(s[shift]) <= free && Stored(b[..], s[..], ns - shift, free - mshift, lines[shift..])
    ensures free < b.Length && b[free - mshift] == old(b[Behind(free, b.Length - 1, mshift)])
  {
    ghost var bs, ss := b[..], s[..];
    StartsGrow(bs, ss, ns, free, lines, 0, shift);
    StartsGrow(bs, ss, ns, free, lines, shift, ns - 1);
    assert shift < ns <= |ss| && ss[0] == 0 <= ss[shift] <= free < |bs|;
    hide *;
    mshift := MoveBoth(b, s, shift, ns);
    BehindMoves(bs, ss, b[..], s[..], ns, shift, free);
    ShiftKeeps(bs, ss, b[..], s[..], ns, free, lines, shift);
  }

  lemma BehindMoves(b: seq<int>, s: seq<int>, b': seq<int>, s': seq<int>, ns: int, shift: nat, free: int)
    requires shift < ns <= |s| && MovedDown(b, s, b', s', ns, shift) && s[shift] <= free < |b|
    ensures b'[free - s[shift]] == b[Behind(free, |b| - 1, s[shift])]
  {
    if free < |b| - 1 {
      assert b'[free - s[shift]] == b[s[shift] + (free - s[shift])];
    }
  }

  method MoveBoth(b: array<int>, s: array<int>, shift: nat, ns: int) returns (mshift: nat)
    requires b != s && shift < ns <= s.Length && s[0] == 0 <= s[shift] < b.Length
    modifies b, s
    ensures mshift == old(s[shift]) && MovedDown(old(b[..]), old(s[..]), b[..], s[..], ns, shift)
  {
    var new0 := s[shift];
    mshift := new0 - s[0];
    MoveDown(b, mshift, b.Length - 1 - mshift);
    MoveStarts(s, shift, ns, mshift);
  }

  class XBuf {
    const b: array<int>
    const s: array<int>
    const dim: nat
    const ms: nat
    var shift: nat
    var ns: int
    var free: int
    var av: int
    ghost var lines: seq<Line>

    function Bounds(): Limits
      reads `shift
    {
      Limits(dim, ms, shift)
    }

    ghost predicate Shape()
      reads `ns, `free, `lines, b, s
    {
      && b != s && b.Length == dim + 1 && s.Length == ms
      && Stored(b[..], s[..], ns, free, lines)
      && 0 < ns == |lines| && 0 <= free <= dim
    }

    /** Nothing is reserved: av counts the places that are left. */
    predicate Balanced()
      reads `free, `av
    {
      av == dim - free
    }

    predicate Terminated()
      reads `free, b
    {
      0 <= free < b.Length && b[free] == NUL
    }

    ghost predicate Valid()
      reads this, b, s
    {
      Shape() && Balanced() && Terminated() && Usable(Bounds())
    }

    /** An empty buffer: one line without characters. */
    constructor (dim: nat, ms: nat, shift: nat)
      requires Usable(Limits(dim, ms, shift))
      ensures Valid() && Bounds() == Limits(dim, ms, shift) && lines == [[]] && fresh(b) && fresh(s)
    {
      this.dim, this.ms, this.shift := dim, ms, shift;
      b := new int[dim + 1];
      s := new int[ms];
      ns, free, av := 1, 0, dim;
      lines := [[]];
      new;
      s[0] := 0;
      b[0] := NUL;
    }

    /** The terminator of the current line survives a shift by n lines. */
    predicate KeepsTerminator(n: nat)
      reads `ns, `free, b, s
    {
      n >= ns || (n < s.Length && 0 <= Behind(free, dim, s[n]) < b.Length && b[Behind(free, dim, s[n])] == NUL)
    }

    /** xbufshift: drops the first lines. */
    method Shift()
      requires Shape() && Balanced()
      modifies `ns, `free, `av, `lines, b, s
      ensures Shape() && Balanced() && lines == Dropped(old(lines), shift)
      ensures Terminated() <==> old(KeepsTerminator(shift))
    {
      if shift >= ns {
        ns, av, free := 1, dim, 0;
        s[0] := 0;
        b[0] := NUL;
        lines := [[]];
      } else {
        ShiftDown();
      }
    }

    method ShiftDown()
      requires Shape() && Balanced() && shift < ns
      modifies `ns, `free, `av, `lines, b, s
      ensures Shape() && Balanced() && lines == old(lines[shift..])
      ensures Terminated() <==> old(KeepsTerminator(shift))
    {
      var m := MoveLines(b, s, shift, ns, free, lines);
      hide Stored;
      Move(lines[shift..], shift, m);
    }

    /** The counts after the lines have been moved. */
    method Move(ghost rest: seq<Line>, n: nat, m: nat)
      requires Stored(b[..], s[..], ns - n, free - m, rest) && b != s && b.Length == dim + 1 && s.Length == ms
      requires Balanced()
      modifies `ns, `free, `av, `lines
      ensures Shape() && Balanced() && lines == rest && free == old(free) - m
    {
      lines := rest;
      ns := ns - n;
      free := free - m;
      av := av + m;
    }

    /** xbufmakeroom: reserves size places, dropping lines from the front as long as it has to. */
    method MakeRoom(size: nat) returns (ok: bool)
      requires Shape() && Balanced() && Usable(Bounds())
      modifies `ns, `free, `av, `lines, b, s
      ensures ok <==> size <= dim
      ensures !ok ==> unchanged(this, b, s)
      ensures ok ==> Shape() && av == dim - free - size && lines == Room(old(lines), size, Bounds())
    {
      if size > dim {
        return false;
      }
      while av < size || ns == ms
        invariant Shape() && Balanced() && lines != []
        invariant Room(lines, size, Bounds()) == Room(old(lines), size, Bounds())
        decreases |lines|, Used(lines)
      {
        FreeIs();
        Shift();
      }
      FreeIs();
      av := av - size;
      ok := true;
    }

    lemma FreeIs()
      requires Shape()
      ensures free == Used(lines)
    {
      FreeIsUsed(b[..], s[..], ns, free, lines, 0);
      assert lines[0..] == lines;
    }

    /** Ends the current line. */
    method EndLine()
      requires Shape() && free < dim && ns < ms
      modifies `ns, `free, `lines, b, s
      ensures Shape() && lines == Write(old(lines), NEWLINE) && free == old(free) + 1
    {
      StoredNewline(b[..], s[..], ns, free, lines);
      hide Stored, Write;
      ghost var bs, ss := b[..][free := NUL], s[..][ns := free + 1];
      b[free] := NUL;
      free := free + 1;
      s[ns] := free;
      ns := ns + 1;
      assert b[..] == bs && s[..] == ss;
      lines := Write(lines, NEWLINE);
    }

    /** Puts a character behind the current line. */
    method PutPlain(c: int)
      requires Shape() && free < dim && c != NUL && NeedsRoom(c) && c != NEWLINE
      modifies `free, `lines, b
      ensures Shape() && lines == Write(old(lines), c) && free == old(free) + 1
    {
      StoredPut(b[..], s[..], ns, free, lines, c);
      hide Stored, Write;
      ghost var bs := b[..][free := c];
      b[free] := c;
      free := free + 1;
      assert b[..] == bs;
      lines := Write(lines, c);
    }

    method Terminate()
      requires Shape()
      modifies b
      ensures Shape() && Terminated()
    {
      ghost var bs := b[..];
      b[free] := NUL;
      StoredBelow(bs, s[..], b[..], s[..], ns, free, lines);
    }

    /** The backspace of xbufaddxc. */
    method Back()
      requires Valid()
      modifies `free, `av, `lines
      ensures Shape() && Balanced() && lines == Write(old(lines), BACK)
    {
      ghost var last := lines[ns - 1];
      assert Stands(b[..], s[..], free, lines, ns - 1);
      assert last != [] ==> last[0] == b[..][s[ns - 1] + 0] && last[0] != NUL;
      assert b[s[ns - 1]] != NUL <==> last != [];
      if b[s[ns - 1]] != NUL {
        StoredBack(b[..], s[..], ns, free, lines);
        free := free - 1;
        av := av + 1;
        lines := Write(lines, BACK);
      }
    }

    /** xbufaddxc: a character of the output, tabs aside. */
    method AddChar(c: int)
      requires Valid() && c != NUL && c != TAB
      modifies `ns, `free, `av, `lines, b, s
      ensures Valid() && lines == Buffered(old(lines), c, Bounds())
    {
      assert Write(lines, BELL) == lines;
      hide Stored, Room, Write;
      if c == BELL {
      } else if c == BACK {
        Back();
      } else {
        var ok := MakeRoom(1);
        FreeIs();
        if c == NEWLINE {
          EndLine();
        } else {
          PutPlain(c);
        }
      }
      Terminate();
    }

    /** xbufaddxs: a string of characters. */
    method AddString(text: seq<int>)
      requires Valid() && NUL !in text && TAB !in text
      modifies `ns, `free, `av, `lines, b, s
      ensures Valid() && lines == BufferedAll(old(lines), text, Bounds())
    {
      hide Stored, Buffered;
      var i := 0;
      assert text[0..] == text;
      while i < |text|
        invariant 0 <= i <= |text| && Valid() && lines != []
        invariant BufferedAll(lines, text[i..], Bounds()) == BufferedAll(old(lines), text, Bounds())
      {
        assert text[i..][1..] == text[i + 1..];
        AddChar(text[i]);
        i := i + 1;
      }
    }

    /** xbuffixl: counts again after the current line has been edited in place to typed. */
    method FixLast(ghost typed: Line)
      requires Shape() && LineAt(b[..], s[ns - 1], typed)
      requires s[ns - 1] + |typed| <= dim && b[s[ns - 1] + |typed|] == NUL
      requires Usable(Bounds())
      modifies `free, `av, `lines
      ensures Valid() && lines == old(lines[..ns - 1]) + [typed]
    {
      var ps := s[ns - 1];
      StoredLast(b[..], s[..], ns, free, lines, ps + |typed|, typed);
      hide Stored;
      assert forall p :: ps <= p < ps + |typed| ==> b[p] != NUL by {
        forall p | ps <= p < ps + |typed| ensures b[p] != NUL {
          assert typed[p - ps] == b[..][p];
        }
      }
      free := ps;
      while b[free] != NUL
        invariant ps <= free <= ps + |typed|
        decreases ps + |typed| - free
        modifies `free
      {
        free := free + 1;
      }
      av := dim - free;
      lines := lines[..ns - 1] + [typed];
    }

    /**
     * consoleclear: drops all lines but the current one. That one stays terminated unless the buffer
     * was full, other lines stood before it, and a character stands where it now ends.
     */
    method Clear()
      requires Valid()
      modifies `shift, `ns, `free, `av, `lines, b, s
      ensures Shape() && Balanced() && lines == [old(lines[|lines| - 1])] && shift == old(shift)
      ensures 0 <= old(s[ns - 1]) <= dim
      ensures Terminated() <==> old(av) > 0 || old(ns) == 1 || old(b[dim - s[ns - 1]]) == NUL
      ensures Terminated() <==> Valid()
    {
      StartsGrow(b[..], s[..], ns, free, lines, 0, ns - 1);
      assert s[0] == 0 && Stands(b[..], s[..], free, lines, ns - 1);
      hide Stored, Stands;
      var oldshift := shift;
      shift := ns - 1;
      Shift();
      shift := oldshift;
    }
  }

  lemma TwoLines(last: Line, c: int, m: Limits)
    requires NeedsRoom(c) && c != NEWLINE && Usable(m) && |last| + 2 <= m.dim && m.ms > 2
    ensures Buffered([[], last], c, m) == [[], last + [c]]
  {
    var lines := [[], last];
    assert lines[1..] == [last] && Used(lines) == |last| + 1;
    assert Fits(lines, 1, m) && lines[..1] == [[]];
  }

  lemma FirstBreak()
    ensures Buffered([[]], NEWLINE, Limits(3, 3, 1)) == [[], []]
    ensures [] + [98] == [98] && [98] + [98] == [98, 98]
  {
  }

  /** Three places hold a line break and bb. */
  method FillUp() returns (x: XBuf)
    ensures fresh(x) && fresh(x.b) && fresh(x.s)
    ensures x.Valid() && x.lines == [[], [98, 98]] && x.Bounds() == Limits(3, 3, 1)
  {
    hide Buffered, Stored, Write, Room, Fits;
    x := new XBuf(3, 3, 1);
    FirstBreak();
    TwoLines([], 98, Limits(3, 3, 1));
    TwoLines([98], 98, Limits(3, 3, 1));
    x.AddChar(NEWLINE);
    x.AddChar(98);
    x.AddChar(98);
  }

  lemma SecondLineStands(b: seq<int>, s: seq<int>, ns: int, free: int, x: int, y: int)
    requires Stored(b, s, ns, free, [[], [x, y]]) && y != NUL
    ensures ns == 2 && s[1] == 1 && free == 3 && |b| > 2 && b[2] == y
  {
    var lines := [[], [x, y]];
    assert Joined(b, s, free, lines, 0) && Stands(b, s, free, lines, 1);
    assert b[s[1] + 1] == lines[1][1];
  }

  /** Cleared, the full buffer holds bb without an end. */
  method ClearedWithoutEnd() returns (x: XBuf)
    ensures x.Shape() && x.lines == [[98, 98]] && !x.Terminated()
  {
    x := FillUp();
    SecondLineStands(x.b[..], x.s[..], x.ns, x.free, 98, 98);
    hide Stored;
    x.Clear();
  }
}
