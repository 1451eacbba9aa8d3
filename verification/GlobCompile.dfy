/** The compiler of glob0. */
module GlobCompile {
  import opened GlobPattern

  const EOS: int := 0

  /** A pattern as it is given: no character is the end sign, with or without its quoting bits. */
  ghost predicate IsPattern(p: seq<int>) {
    forall i :: 0 <= i < |p| ==> p[i] != EOS && Char(p[i]) != 0
  }

  ghost predicate HasClose(p: seq<int>, i: int) {
    exists k :: 0 <= i <= k < |p| && p[k] == RBRACKET
  }

  /** The item of a set that begins at i, and where the next one begins. */
  function NextItem(p: seq<int>, i: nat): (Item, nat)
    requires i < |p|
  {
    if i + 2 < |p| && p[i + 1] == RANGE && p[i + 2] != RBRACKET then (Range(Char(p[i]), Char(p[i + 2])), i + 3)
    else (Single(Char(p[i])), i + 1)
  }

  /** Behind an item the closing bracket is still ahead. */
  lemma CloseAhead(p: seq<int>, i: nat)
    requires i < |p| && HasClose(p, i + 1)
    ensures i < NextItem(p, i).1 < |p| && HasClose(p, NextItem(p, i).1)
    ensures p[NextItem(p, i).1] != RBRACKET ==> HasClose(p, NextItem(p, i).1 + 1)
  {
    var k :| 0 <= i + 1 <= k < |p| && p[k] == RBRACKET;
  }

  /** The items of a set from i on, and where the pattern goes on behind the closing bracket. */
  ghost function Items(p: seq<int>, i: nat): (r: (seq<Item>, nat))
    requires i < |p| && HasClose(p, i + 1)
    ensures i < r.1 <= |p|
    decreases |p| - i
  {
    CloseAhead(p, i);
    var (item, j) := NextItem(p, i);
    if p[j] == RBRACKET then ([item], j + 1)
    else var (rest, k) := Items(p, j); ([item] + rest, k)
  }

  /** Where the items of a set that is opened at i begin. */
  function SetStart(p: seq<int>, i: nat): nat
    requires i < |p|
  {
    if i + 1 < |p| && p[i + 1] == NOT then i + 2 else i + 1
  }

  /** A bracket at i opens a set if a closing one follows behind the first item character. */
  ghost predicate OpensSet(p: seq<int>, i: nat)
    requires i < |p|
  {
    SetStart(p, i) < |p| && HasClose(p, SetStart(p, i) + 1)
  }

  /** The tokens of the pattern from i on. */
  ghost function Parse(p: seq<int>, i: nat): seq<Token>
    requires i <= |p|
    decreases |p| - i
  {
    if i == |p| then []
    else if p[i] == LBRACKET then
      if OpensSet(p, i) then
        var (items, k) := Items(p, SetStart(p, i));
        [Set(SetStart(p, i) == i + 2, items)] + Parse(p, k)
      else [Lit(LBRACKET)] + Parse(p, i + 1)
    else [if p[i] == QUESTION then One else if p[i] == STAR then Star else Lit(Char(p[i]))] + Parse(p, i + 1)
  }

  // ----- the buffers -----

  /** From r on, src still holds the pattern and its end sign. */
  ghost predicate Unread(src: array<int>, p: seq<int>, r: int)
    reads src
  {
    |p| < src.Length && 0 <= r && (forall k :: r <= k < |p| ==> src[k] == p[k]) && src[|p|] == EOS
  }

  ghost predicate Written(dst: array<int>, w: int, code: seq<int>)
    reads dst
  {
    0 <= w == |code| <= dst.Length && forall k :: 0 <= k < w ==> dst[k] == code[k]
  }

  /** Writes one code behind what is written; even if both buffers are the same, nothing unread is lost. */
  method Emit(src: array<int>, dst: array<int>, w: nat, c: int, ghost p: seq<int>, ghost r: int, ghost code: seq<int>)
    returns (w': nat)
    requires Unread(src, p, r) && Written(dst, w, code) && w < r <= |p| < dst.Length
    modifies dst
    ensures w' == w + 1 && Unread(src, p, r) && Written(dst, w', code + [c])
  {
    dst[w] := c;
    w' := w + 1;
  }

  /** g_strchr for the closing bracket. */
  method FindClose(src: array<int>, i: nat, ghost p: seq<int>) returns (found: bool)
    requires Unread(src, p, i) && IsPattern(p) && i <= |p|
    ensures found <==> HasClose(p, i)
  {
    var k := i;
    while true
      invariant i <= k <= |p| && forall l :: i <= l < k ==> p[l] != RBRACKET
      decreases |p| - k
    {
      if src[k] == RBRACKET {
        assert k < |p|;
        return true;
      }
      if src[k] == EOS {
        return false;
      }
      k := k + 1;
    }
  }

  /** The codes of the items, from first to last. */
  function ItemsCode(items: seq<Item>): seq<int> {
    if items == [] then [] else ItemsCode(items[..|items| - 1]) + CodeItem(items[|items| - 1])
  }

  lemma {:induction false} SetTailIsItems(items: seq<Item>, rest: seq<int>)
    ensures SetTail(items, rest) == ItemsCode(items) + ([M_END] + rest)
    decreases |items|
  {
    if items == [] {
      assert ItemsCode(items) + ([M_END] + rest) == [M_END] + rest;
    } else {
      SetTailIsItems(items[1..], rest);
      FrontItem(items);
      var a, b, c := CodeItem(items[0]), ItemsCode(items[1..]), [M_END] + rest;
      assert a + (b + c) == a + b + c;
    }
  }

  lemma {:induction false} FrontItem(items: seq<Item>)
    requires items != []
    ensures ItemsCode(items) == CodeItem(items[0]) + ItemsCode(items[1..])
    decreases |items|
  {
    hide CodeItem;
    if |items| == 1 {
      assert items[..0] == [] == items[1..];
      assert ItemsCode(items) == ItemsCode([]) + CodeItem(items[0]);
      assert [] + CodeItem(items[0]) == CodeItem(items[0]) + [];
    } else {
      var init, last := items[..|items| - 1], items[|items| - 1];
      FrontItem(init);
      assert init[0] == items[0] && init[1..] == items[1..][..|items| - 2];
      assert items[1..][|items| - 2] == last;
      var a, b, c := CodeItem(items[0]), ItemsCode(init[1..]), CodeItem(last);
      assert a + b + c == a + (b + c);
    }
  }

  /** Compiles one item of a set. */
  method CompileItem(src: array<int>, dst: array<int>, r0: nat, w0: nat, ghost p: seq<int>, ghost code: seq<int>)
    returns (r: nat, w: nat)
    requires Unread(src, p, r0) && Written(dst, w0, code) && w0 <= r0 < |p| < dst.Length && HasClose(p, r0 + 1)
    modifies dst
    ensures r == NextItem(p, r0).1 && r < |p| && w <= r && Unread(src, p, r)
    ensures Written(dst, w, code + CodeItem(NextItem(p, r0).0))
  {
    hide Written;
    CloseAhead(p, r0);
    var c := src[r0];
    ghost var c0 := Char(c);
    r := r0 + 1;
    w := Emit(src, dst, w0, Char(c), p, r, code);
    if src[r] == RANGE && src[r + 1] != RBRACKET {
      c := src[r + 1];
      w := Emit(src, dst, w, M_RNG, p, r + 2, code + [c0]);
      w := Emit(src, dst, w, Char(c), p, r + 2, code + [c0] + [M_RNG]);
      r := r + 2;
      assert code + [c0] + [M_RNG] + [Char(c)] == code + [c0, M_RNG, Char(c)];
    }
  }

  /** Compiles the items of a set and its end. */
  method CompileItems(src: array<int>, dst: array<int>, r0: nat, w0: nat, ghost p: seq<int>, ghost code: seq<int>)
    returns (r: nat, w: nat)
    requires Unread(src, p, r0) && Written(dst, w0, code) && w0 <= r0 < |p| < dst.Length && HasClose(p, r0 + 1)
    requires IsPattern(p)
    modifies dst
    ensures r == Items(p, r0).1 && r <= |p| && w <= r && Unread(src, p, r)
    ensures Written(dst, w, code + SetTail(Items(p, r0).0, []))
  {
    hide Written, CodeItem, NextItem, Items, ItemsCode, SetTail, HasClose;
    ghost var all, end := Items(p, r0).0, Items(p, r0).1;
    ghost var done: seq<Item> := [];
    NoItems(code, all);
    r, w := r0, w0;
    while true
      invariant r0 <= r < |p| && 0 <= w <= r && Unread(src, p, r) && HasClose(p, r + 1)
      invariant Written(dst, w, code + ItemsCode(done))
      invariant all == done + Items(p, r).0 && end == Items(p, r).1
      decreases |p| - r
    {
      ghost var item := NextItem(p, r).0;
      CloseAhead(p, r);
      ItemsAdvance(p, r, done, all, end);
      OneMoreItem(code, done, item);
      r, w := CompileItem(src, dst, r, w, p, code + ItemsCode(done));
      done := done + [item];
      if src[r] == RBRACKET {
        break;
      }
    }
    w := Emit(src, dst, w, M_END, p, r + 1, code + ItemsCode(done));
    r := r + 1;
    CodeOfItems(code, done);
  }

  lemma NoItems(code: seq<int>, all: seq<Item>)
    ensures code + ItemsCode([]) == code && [] + all == all
  {
  }

  /** One more item has been read, the last one or one that others follow. */
  lemma ItemsAdvance(p: seq<int>, i: nat, done: seq<Item>, all: seq<Item>, end: nat)
    requires i < |p| && HasClose(p, i + 1) && all == done + Items(p, i).0 && end == Items(p, i).1
    ensures var (item, j) := NextItem(p, i);
      && j < |p|
      && (p[j] == RBRACKET ==> all == done + [item] && end == j + 1)
      && (p[j] != RBRACKET ==> HasClose(p, j + 1) && all == done + [item] + Items(p, j).0 && end == Items(p, j).1)
  {
    hide NextItem;
    CloseAhead(p, i);
    var (item, j) := NextItem(p, i);
    if p[j] != RBRACKET {
      assert done + ([item] + Items(p, j).0) == done + [item] + Items(p, j).0;
    }
  }

  lemma CodeOfItems(code: seq<int>, items: seq<Item>)
    ensures code + ItemsCode(items) + [M_END] == code + SetTail(items, [])
  {
    hide ItemsCode, SetTail;
    SetTailIsItems(items, []);
    assert [M_END] + [] == [M_END];
    assert code + ItemsCode(items) + [M_END] == code + (ItemsCode(items) + [M_END]);
  }

  lemma OneMoreItem(code: seq<int>, items: seq<Item>, item: Item)
    ensures code + ItemsCode(items + [item]) == code + ItemsCode(items) + CodeItem(item)
  {
    hide CodeItem;
    assert (items + [item])[..|items|] == items;
  }

  // ----- the compiler -----

  /** The last code is that of a star only if the last token is one. */
  lemma LastCode(toks: seq<Token>)
    requires Plain(toks) && toks != []
    ensures Code(toks) != [] && (Code(toks)[|Code(toks)| - 1] == M_ALL <==> toks[|toks| - 1] == Star)
  {
    var front, last := toks[..|toks| - 1], toks[|toks| - 1];
    CodeOfSum(front, [last]);
    assert front + [last] == toks && Code([last]) == CodeToken(last) + [];
    assert PlainToken(last);
    hide Code;
    if last.Set? {
      SetTailIsItems(last.items, []);
      assert ItemsCode(last.items) + ([M_END] + []) == ItemsCode(last.items) + [M_END];
    }
  }

  lemma {:induction false} CollapsePlain(toks: seq<Token>)
    requires Plain(toks)
    ensures Plain(Collapse(toks))
  {
    if toks != [] {
      CollapsePlain(toks[..|toks| - 1]);
    }
  }

  /** Collapsing after one more token. */
  lemma CollapseStep(toks: seq<Token>, t: Token)
    ensures Collapse(toks + [t]) ==
      if t == Star && Collapse(toks) != [] && Collapse(toks)[|Collapse(toks)| - 1] == Star then Collapse(toks)
      else Collapse(toks) + [t]
  {
    assert (toks + [t])[..|toks|] == toks;
  }

  lemma CodeStep(toks: seq<Token>, t: Token)
    ensures Code(toks + [t]) == Code(toks) + CodeToken(t)
  {
    CodeOfSum(toks, [t]);
    assert Code([t]) == CodeToken(t) + [];
  }

  /** The case of an opening bracket. */
  method CompileBracket(src: array<int>, dst: array<int>, r0: nat, w0: nat, ghost p: seq<int>, ghost code: seq<int>)
    returns (r: nat, w: nat, isSet: bool, ghost t: Token)
    requires Unread(src, p, r0) && Written(dst, w0, code) && w0 <= r0 < |p| < dst.Length && IsPattern(p)
    requires p[r0] == LBRACKET
    modifies dst
    ensures r0 < r <= |p| && w <= r && Unread(src, p, r) && Written(dst, w, code + CodeToken(t))
    ensures Parse(p, r0) == [t] + Parse(p, r) && PlainToken(t) && t != Star && (isSet <==> !t.Lit?)
  {
    hide Written, HasClose, CodeToken, Items;
    r := r0 + 1;
    var c := src[r];
    if c == NOT {
      r := r + 1;
    }
    assert r == SetStart(p, r0);
    isSet := src[r] != EOS;
    if isSet {
      isSet := FindClose(src, r + 1, p);
    }
    if !isSet {
      w := Emit(src, dst, w0, LBRACKET, p, r0 + 1, code);
      if c == NOT {
        r := r - 1;
      }
      t := Lit(LBRACKET);
      LiteralCode(LBRACKET);
    } else {
      r, w, t := CompileSet(src, dst, r0, r, w0, c == NOT, p, code);
      SetParsed(p, r0);
    }
  }

  lemma LiteralCode(c: int)
    ensures CodeToken(Lit(c)) == [c]
  {
  }

  lemma SetParsed(p: seq<int>, r: nat)
    requires r < |p| && p[r] == LBRACKET && OpensSet(p, r)
    ensures var (items, next) := Items(p, SetStart(p, r));
      Parse(p, r) == [Set(SetStart(p, r) == r + 2, items)] + Parse(p, next)
  {
  }

  /** Compiles a set, from its bracket on. */
  method CompileSet(src: array<int>, dst: array<int>, ghost r0: nat, start: nat, w0: nat, negated: bool,
                    ghost p: seq<int>, ghost code: seq<int>)
    returns (r: nat, w: nat, ghost t: Token)
    requires r0 < |p| && start == SetStart(p, r0) && OpensSet(p, r0) && (negated <==> start == r0 + 2)
    requires Unread(src, p, start) && Written(dst, w0, code) && w0 <= r0 < |p| < dst.Length && IsPattern(p)
    modifies dst
    ensures t == Set(negated, Items(p, start).0) && r == Items(p, start).1
    ensures r0 < r <= |p| && w <= r && Unread(src, p, r) && Written(dst, w, code + CodeToken(t)) && PlainToken(t)
  {
    hide Written, HasClose, SetTail, Items;
    ItemsPlain(p, start);
    ghost var items := Items(p, start).0;
    t := Set(negated, items);
    w := Emit(src, dst, w0, M_SET, p, start, code);
    ghost var head := [M_SET];
    if negated {
      w := Emit(src, dst, w, M_NOT, p, start, code + head);
      head := head + [M_NOT];
      assert code + [M_SET] + [M_NOT] == code + head;
    }
    r, w := CompileItems(src, dst, start, w, p, code + head);
    assert code + head + SetTail(items, []) == code + (head + SetTail(items, []));
    assert CodeToken(t) == head + SetTail(items, []);
  }

  lemma {:induction false} ItemsPlain(p: seq<int>, i: nat)
    requires IsPattern(p) && i < |p| && HasClose(p, i + 1)
    ensures forall k :: 0 <= k < |Items(p, i).0| ==> PlainItem(Items(p, i).0[k])
    decreases |p| - i
  {
    CloseAhead(p, i);
    var j := NextItem(p, i).1;
    if p[j] != RBRACKET {
      ItemsPlain(p, j);
    }
  }

  lemma NothingDone(dst: array<int>)
    ensures Written(dst, 0, Code(Collapse([]))) && Plain([]) && !HasMagic([])
  {
  }

  lemma MoreDone(done: seq<Token>, t: Token, rest: seq<Token>)
    ensures done + ([t] + rest) == done + [t] + rest
    ensures Plain(done) && PlainToken(t) ==> Plain(done + [t])
  {
  }

  lemma AllDone(p: seq<int>, r: nat, done: seq<Token>)
    requires r == |p|
    ensures done + Parse(p, r) == done
  {
  }

  /** Some token is more than a character. */
  ghost predicate HasMagic(ts: seq<Token>) {
    exists i :: 0 <= i < |ts| && !ts[i].Lit?
  }

  lemma MagicStep(done: seq<Token>, t: Token)
    ensures HasMagic(done + [t]) <==> HasMagic(done) || !t.Lit?
  {
    var more := done + [t];
    if HasMagic(done) {
      var i :| 0 <= i < |done| && !done[i].Lit?;
      assert !more[i].Lit?;
    }
    if !t.Lit? {
      assert !more[|done|].Lit?;
    }
  }

  lemma LastWritten(dst: array<int>, w: nat, code: seq<int>)
    requires Written(dst, w, code)
    ensures w == |code| && (w > 0 ==> w <= dst.Length && dst[w - 1] == code[|code| - 1])
  {
  }

  lemma FirstIsEmpty(dst: array<int>, w: nat, toks: seq<Token>)
    requires Written(dst, w, Code(toks)) && Plain(toks)
    ensures w == 0 <==> toks == []
    ensures w > 0 ==> w <= dst.Length && (dst[w - 1] == M_ALL <==> toks[|toks| - 1] == Star)
  {
    assert toks == [] ==> Code(toks) == [];
    hide *;
    LastWritten(dst, w, Code(toks));
    if toks != [] {
      LastCode(toks);
    }
  }

  /** One pass of the compiling loop. */
  method CompileNext(src: array<int>, dst: array<int>, r0: nat, w0: nat, ghost p: seq<int>, ghost done: seq<Token>)
    returns (r: nat, w: nat, magic: bool, ghost t: Token)
    requires Unread(src, p, r0) && Written(dst, w0, Code(Collapse(done))) && w0 <= r0 < |p| < dst.Length
    requires IsPattern(p) && Plain(done)
    modifies dst
    ensures r0 < r <= |p| && w <= r && Unread(src, p, r) && Written(dst, w, Code(Collapse(done + [t])))
    ensures Parse(p, r0) == [t] + Parse(p, r) && PlainToken(t) && (magic <==> !t.Lit?)
  {
    hide Written, Code, Collapse, Parse, CodeToken, Plain;
    ghost var code := Code(Collapse(done));
    var c := src[r0];
    if c == LBRACKET {
      r, w, magic, t := CompileBracket(src, dst, r0, w0, p, code);
      CodeAppended(done, t);
      return;
    }
    r, magic := r0 + 1, true;
    ParseOne(p, r0);
    if c == QUESTION {
      t := One;
      CodeAppended(done, t);
      w := Emit(src, dst, w0, M_ONE, p, r, code);
    } else if c == STAR {
      t := Star;
      StarAppended(dst, w0, done);
      w := w0;
      if w0 == 0 || dst[w0 - 1] != M_ALL {
        w := Emit(src, dst, w0, M_ALL, p, r, code);
      }
    } else {
      t := Lit(Char(c));
      magic := false;
      CodeAppended(done, t);
      w := Emit(src, dst, w0, Char(c), p, r, code);
    }
  }

  lemma ParseOne(p: seq<int>, i: nat)
    requires i < |p| && p[i] != LBRACKET
    ensures Parse(p, i) ==
            [if p[i] == QUESTION then One else if p[i] == STAR then Star else Lit(Char(p[i]))] + Parse(p, i + 1)
  {
  }

  lemma CodeAppended(done: seq<Token>, t: Token)
    requires t != Star
    ensures Code(Collapse(done + [t])) == Code(Collapse(done)) + CodeToken(t)
    ensures t == One ==> CodeToken(t) == [M_ONE]
    ensures t.Lit? ==> CodeToken(t) == [t.c]
  {
    hide Code, Collapse;
    CollapseStep(done, t);
    CodeStep(Collapse(done), t);
  }

  /** A star is written unless one has just been written. */
  lemma StarAppended(dst: array<int>, w: nat, done: seq<Token>)
    requires Written(dst, w, Code(Collapse(done))) && Plain(done)
    ensures w <= dst.Length
    ensures Code(Collapse(done + [Star])) ==
            if w == 0 || dst[w - 1] != M_ALL then Code(Collapse(done)) + [M_ALL] else Code(Collapse(done))
  {
    hide Code, Collapse, Plain;
    var front := Collapse(done);
    CollapsePlain(done);
    FirstIsEmpty(dst, w, front);
    CollapseStep(done, Star);
    if w == 0 || dst[w - 1] != M_ALL {
      CodeStep(front, Star);
    }
  }

  /**
   * The compiling loop of glob0. It works in place too: the buffers may be the same, since never more
   * is written than has been read, so that no check for overflow is needed.
   */
  method Compile(src: array<int>, dst: array<int>, ghost p: seq<int>) returns (w: nat, magic: bool)
    requires Unread(src, p, 0) && |p| < dst.Length && IsPattern(p)
    modifies dst
    ensures w <= |p| && Written(dst, w, Code(Collapse(Parse(p, 0)))) && dst[w] == EOS
    ensures Plain(Collapse(Parse(p, 0)))
    ensures magic <==> HasMagic(Parse(p, 0))
  {
    hide Written, Code, Collapse, CodeToken, HasMagic, Plain, Parse, PlainToken;
    var r := 0;
    w, magic := 0, false;
    ghost var done: seq<Token> := [];
    NothingDone(dst);
    assert [] + Parse(p, 0) == Parse(p, 0);
    while src[r] != EOS
      invariant 0 <= w <= r <= |p| && Unread(src, p, r) && Written(dst, w, Code(Collapse(done)))
      invariant Plain(done) && done + Parse(p, r) == Parse(p, 0)
      invariant magic <==> HasMagic(done)
      decreases |p| - r
    {
      ghost var t, r1 := One, r;
      var isMagic;
      r, w, isMagic, t := CompileNext(src, dst, r, w, p, done);
      MoreDone(done, t, Parse(p, r));
      MagicStep(done, t);
      magic := magic || isMagic;
      done := done + [t];
    }
    AllDone(p, r, done);
    CollapsePlain(done);
    Terminate(dst, w, Code(Collapse(done)));
  }

  method Terminate(dst: array<int>, w: nat, ghost code: seq<int>)
    requires w < dst.Length && Written(dst, w, code)
    modifies dst
    ensures Written(dst, w, code) && dst[w] == EOS
  {
    dst[w] := EOS;
  }

  /** Compiling a pattern and matching a name with it gives what the pattern stands for. */
  method CompileAndMatch(src: array<int>, dst: array<int>, name: seq<int>, nocase: bool, lower: int -> int,
                         ghost p: seq<int>)
    returns (matched: bool)
    requires Unread(src, p, 0) && |p| < dst.Length && IsPattern(p)
    modifies dst
    ensures matched == Matches(Parse(p, 0), name, nocase, lower)
  {
    var w, magic := Compile(src, dst, p);
    ghost var toks := Parse(p, 0);
    CollapseKeepsMeaning(toks, [], name, nocase, lower);
    assert Collapse(toks) + [] == Collapse(toks) && toks + [] == toks;
    assert name[0..] == name;
    assert dst[..][0..w] == Code(Collapse(toks));
    matched := Match(name, 0, dst[..], 0, w, nocase, lower, Collapse(toks));
  }

  // ----- what the mask does to plain characters -----

  /** No character has a special meaning at the top level. */
  ghost predicate IsLiteral(p: seq<int>) {
    forall i :: 0 <= i < |p| ==> p[i] != LBRACKET && p[i] != QUESTION && p[i] != STAR
  }

  /**
   * A text without special characters, used as a pattern, matches itself exactly if no character is
   * compared differently without its quoting bits.
   */
  lemma {:induction false} MatchesItself(p: seq<int>, i: nat, nocase: bool, lower: int -> int)
    requires IsLiteral(p) && i <= |p|
    ensures Matches(Parse(p, i), p[i..], nocase, lower) <==>
      forall k :: i <= k < |p| ==> Fold(Char(p[k]), nocase, lower) == Fold(p[k], nocase, lower)
    decreases |p| - i
  {
    if i < |p| {
      MatchesItself(p, i + 1, nocase, lower);
      assert p[i..][0] == p[i] && p[i..][1..] == p[i + 1..];
      assert Parse(p, i) == [Lit(Char(p[i]))] + Parse(p, i + 1);
      hide Matches, Parse, Char;
      LiteralMeaning(Char(p[i]), Parse(p, i + 1), p[i..], nocase, lower);
    }
  }

  lemma LiteralMeaning(c: int, rest: seq<Token>, name: seq<int>, nocase: bool, lower: int -> int)
    ensures Matches([Lit(c)] + rest, name, nocase, lower) <==>
      name != [] && Fold(name[0], nocase, lower) == Fold(c, nocase, lower) && Matches(rest, name[1..], nocase, lower)
  {
    assert ([Lit(c)] + rest)[1..] == rest;
  }

  /** If case counts, those are the characters below 0x4000. */
  lemma MatchesItselfBelow(p: seq<int>, lower: int -> int)
    requires IsLiteral(p)
    ensures Matches(Parse(p, 0), p, false, lower) <==> forall k :: 0 <= k < |p| ==> 0 <= p[k] < 0x4000
  {
    assert forall c :: Char(c) == c <==> 0 <= c < 0x4000;
    assert forall c :: Fold(c, false, lower) == c;
    assert p[0..] == p;
    hide *;
    MatchesItself(p, 0, false, lower);
  }

  /** The character 0x4E2D, say, does not match itself. */
  lemma WideCharacter(lower: int -> int)
    ensures IsPattern([0x4E2D]) && !Matches(Parse([0x4E2D], 0), [0x4E2D], false, lower)
  {
    MatchesItselfBelow([0x4E2D], lower);
    assert [0x4E2D][0] == 0x4E2D;
  }
}
