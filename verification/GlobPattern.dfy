/** The wildcard patterns of dos_wglob: compilation into codes and matching. */
module GlobPattern {
  const NOT: int := 33
  const STAR: int := 42
  const RANGE: int := 45
  const QUESTION: int := 63
  const LBRACKET: int := 91
  const RBRACKET: int := 93

  const M_QUOTE: int := 0x8000
  const M_ALL: int := M_QUOTE + STAR
  const M_END: int := M_QUOTE + RBRACKET
  const M_NOT: int := M_QUOTE + NOT
  const M_ONE: int := M_QUOTE + QUESTION
  const M_RNG: int := M_QUOTE + RANGE
  const M_SET: int := M_QUOTE + LBRACKET

  /** The character without its quoting bits. */
  function Char(c: int): (r: int)
    ensures 0 <= r < 0x4000
  {
    c % 0x4000
  }

  // ----- patterns and their meaning -----

  datatype Item = Single(c: int) | Range(lo: int, hi: int)

  datatype Token = Lit(c: int) | One | Star | Set(negated: bool, items: seq<Item>)

  /** How two characters are compared: by their lower case forms, or as they are. */
  function Fold(c: int, nocase: bool, lower: int -> int): int {
    if nocase then lower(c) else c
  }

  predicate InItem(i: Item, k: int, nocase: bool, lower: int -> int) {
    match i
    case Single(c) => Fold(c, nocase, lower) == Fold(k, nocase, lower)
    case Range(lo, hi) => Fold(lo, nocase, lower) <= Fold(k, nocase, lower) <= Fold(hi, nocase, lower)
  }

  predicate InItems(items: seq<Item>, k: int, nocase: bool, lower: int -> int) {
    exists i :: 0 <= i < |items| && InItem(items[i], k, nocase, lower)
  }

  /** What a pattern stands for: a star for any string, a question mark for any one character, a set for its members. */
  predicate Matches(toks: seq<Token>, name: seq<int>, nocase: bool, lower: int -> int)
    decreases |toks|
  {
    if toks == [] then name == []
    else
      var rest := toks[1..];
      match toks[0]
      case Star => exists k :: 0 <= k <= |name| && Matches(rest, name[k..], nocase, lower)
      case One => name != [] && Matches(rest, name[1..], nocase, lower)
      case Lit(c) =>
        name != [] && Fold(name[0], nocase, lower) == Fold(c, nocase, lower) && Matches(rest, name[1..], nocase, lower)
      case Set(negated, items) =>
        name != [] && InItems(items, name[0], nocase, lower) != negated && Matches(rest, name[1..], nocase, lower)
  }

  /** Two stars in a row stand for the same as one. */
  lemma TwoStars(rest: seq<Token>, name: seq<int>, nocase: bool, lower: int -> int)
    ensures Matches([Star] + rest, name, nocase, lower) == Matches([Star, Star] + rest, name, nocase, lower)
  {
    var one, two := [Star] + rest, [Star, Star] + rest;
    assert one[1..] == rest && two[1..] == one;
    if Matches(one, name, nocase, lower) {
      assert name[0..] == name;
      assert Matches(two[1..], name[0..], nocase, lower);
    }
    if Matches(two, name, nocase, lower) {
      var k :| 0 <= k <= |name| && Matches(one, name[k..], nocase, lower);
      var l :| 0 <= l <= |name[k..]| && Matches(rest, name[k..][l..], nocase, lower);
      assert name[k..][l..] == name[k + l..];
    }
  }

  /** Drops a star after a star. */
  function Collapse(toks: seq<Token>): seq<Token> {
    if toks == [] then []
    else
      var front := Collapse(toks[..|toks| - 1]);
      var last := toks[|toks| - 1];
      if last == Star && front != [] && front[|front| - 1] == Star then front else front + [last]
  }

  /** Prepending a token keeps an equivalence. */
  lemma SameInFront(t: Token, a: seq<Token>, b: seq<Token>, name: seq<int>, nocase: bool, lower: int -> int)
    requires forall n :: Matches(a, n, nocase, lower) == Matches(b, n, nocase, lower)
    ensures Matches([t] + a, name, nocase, lower) == Matches([t] + b, name, nocase, lower)
  {
    assert ([t] + a)[1..] == a && ([t] + b)[1..] == b;
  }

  /** Appending a common rest keeps an equivalence that holds for all rests. */
  lemma {:induction false} SameBehind(a: seq<Token>, b: seq<Token>, rest: seq<Token>, name: seq<int>, nocase: bool,
                                      lower: int -> int)
    requires forall n :: Matches(b + rest, n, nocase, lower) == Matches(rest, n, nocase, lower)
    ensures Matches(a + b + rest, name, nocase, lower) == Matches(a + rest, name, nocase, lower)
    decreases |a|
  {
    if a == [] {
      assert a + b + rest == b + rest && a + rest == rest;
    } else {
      forall n ensures Matches(a[1..] + b + rest, n, nocase, lower) == Matches(a[1..] + rest, n, nocase, lower) {
        SameBehind(a[1..], b, rest, n, nocase, lower);
      }
      SameInFront(a[0], a[1..] + b + rest, a[1..] + rest, name, nocase, lower);
      assert a + b + rest == [a[0]] + (a[1..] + b + rest) && a + rest == [a[0]] + (a[1..] + rest);
    }
  }

  lemma OneStarLess(front: seq<Token>, rest: seq<Token>, name: seq<int>, nocase: bool, lower: int -> int)
    requires front != [] && front[|front| - 1] == Star
    ensures Matches(front + ([Star] + rest), name, nocase, lower) == Matches(front + rest, name, nocase, lower)
  {
    hide Matches;
    var head := front[..|front| - 1];
    forall n
      ensures Matches([Star] + ([Star] + rest), n, nocase, lower) == Matches([Star] + rest, n, nocase, lower)
    {
      TwoStars(rest, n, nocase, lower);
      assert [Star] + ([Star] + rest) == [Star, Star] + rest;
    }
    SameBehind(head, [Star], [Star] + rest, name, nocase, lower);
    assert head + [Star] + ([Star] + rest) == front + ([Star] + rest);
    assert head + ([Star] + rest) == front + rest;
  }

  /** Collapsing stars does not change what a pattern stands for. */
  lemma {:induction false} CollapseKeepsMeaning(toks: seq<Token>, rest: seq<Token>, name: seq<int>, nocase: bool,
                                                lower: int -> int)
    ensures Matches(Collapse(toks) + rest, name, nocase, lower) == Matches(toks + rest, name, nocase, lower)
  {
    hide Matches;
    if toks != [] {
      var init, last := toks[..|toks| - 1], toks[|toks| - 1];
      var front := Collapse(init);
      CollapseKeepsMeaning(init, [last] + rest, name, nocase, lower);
      assert toks + rest == init + ([last] + rest);
      if last == Star && front != [] && front[|front| - 1] == Star {
        OneStarLess(front, rest, name, nocase, lower);
      } else {
        assert front + [last] + rest == front + ([last] + rest);
      }
    } else {
      assert Collapse(toks) == toks;
    }
  }

  // ----- the compiled form -----

  predicate IsPlain(c: int) {
    0 < c < 0x4000
  }

  predicate PlainItem(i: Item) {
    match i
    case Single(c) => IsPlain(c)
    case Range(lo, hi) => IsPlain(lo) && IsPlain(hi)
  }

  predicate PlainToken(t: Token) {
    match t
    case Lit(c) => IsPlain(c)
    case Set(_, items) => forall i :: 0 <= i < |items| ==> PlainItem(items[i])
    case _ => true
  }

  ghost predicate Plain(toks: seq<Token>) {
    forall i :: 0 <= i < |toks| ==> PlainToken(toks[i])
  }

  function CodeItem(i: Item): seq<int> {
    match i
    case Single(c) => [c]
    case Range(lo, hi) => [lo, M_RNG, hi]
  }

  /** The items of a set, its end, and what follows. */
  function SetTail(items: seq<Item>, rest: seq<int>): (s: seq<int>)
    ensures s != []
  {
    if items == [] then [M_END] + rest else CodeItem(items[0]) + SetTail(items[1..], rest)
  }

  lemma {:induction false} SetTailSum(items: seq<Item>, a: seq<int>, b: seq<int>)
    ensures SetTail(items, a + b) == SetTail(items, a) + b
  {
    hide CodeItem;
    if items == [] {
      assert [M_END] + (a + b) == [M_END] + a + b;
    } else {
      SetTailSum(items[1..], a, b);
      var i, t := CodeItem(items[0]), SetTail(items[1..], a);
      assert i + (t + b) == i + t + b;
    }
  }

  function CodeToken(t: Token): (s: seq<int>)
    ensures s != []
  {
    match t
    case Lit(c) => [c]
    case One => [M_ONE]
    case Star => [M_ALL]
    case Set(negated, items) => [M_SET] + (if negated then [M_NOT] else []) + SetTail(items, [])
  }

  function Code(toks: seq<Token>): seq<int> {
    if toks == [] then [] else CodeToken(toks[0]) + Code(toks[1..])
  }

  lemma {:induction false} CodeOfSum(a: seq<Token>, b: seq<Token>)
    ensures Code(a + b) == Code(a) + Code(b)
  {
    hide CodeToken;
    if a == [] {
      assert a + b == b;
    } else {
      CodeOfSum(a[1..], b);
      assert (a + b)[1..] == a[1..] + b && (a + b)[0] == a[0];
      var c, d, e := CodeToken(a[0]), Code(a[1..]), Code(b);
      assert c + (d + e) == c + d + e;
    }
  }

  /** The codes of a set are followed by those of the rest. */
  ghost predicate At(pat: seq<int>, j: nat, patend: nat, code: seq<int>) {
    j <= patend <= |pat| && pat[j..patend] == code
  }

  lemma AtWithin(pat: seq<int>, j: nat, patend: nat, code: seq<int>)
    requires At(pat, j, patend, code)
    ensures j <= patend <= |pat|
  {
  }

  lemma AtSum(pat: seq<int>, j: nat, patend: nat, a: seq<int>, b: seq<int>)
    requires At(pat, j, patend, a + b)
    ensures j + |a| <= patend <= |pat| && At(pat, j + |a|, patend, b)
    ensures |a| > 0 ==> pat[j] == a[0]
    ensures |a| > 1 ==> pat[j + 1] == a[1]
    ensures |a| > 2 ==> pat[j + 2] == a[2]
  {
    forall k | 0 <= k < |a| ensures pat[j..patend][k] == a[k] {
      assert pat[j..patend][k] == (a + b)[k];
    }
    forall k | 0 <= k < |b| ensures pat[j + |a|..patend][k] == b[k] {
      assert pat[j..patend][|a| + k] == (a + b)[|a| + k];
    }
  }

  lemma FirstItem(items: seq<Item>, k: int, nocase: bool, lower: int -> int)
    ensures InItems(items, k, nocase, lower) <==>
      items != [] && (InItem(items[0], k, nocase, lower) || InItems(items[1..], k, nocase, lower))
  {
    if InItems(items, k, nocase, lower) {
      var i :| 0 <= i < |items| && InItem(items[i], k, nocase, lower);
      assert i > 0 ==> InItem(items[1..][i - 1], k, nocase, lower);
    }
    if items != [] && InItems(items[1..], k, nocase, lower) {
      var i :| 0 <= i < |items[1..]| && InItem(items[1..][i], k, nocase, lower);
      assert InItem(items[i + 1], k, nocase, lower);
    }
  }

  /** k is one of the characters from the first to the last that an item names. */
  ghost predicate Contains(item: Item, k: int) {
    match item
    case Single(c) => k == c
    case Range(lo, hi) => lo <= k && k <= hi
  }

  lemma ItemContains(items: seq<Item>, k: int, lower: int -> int)
    ensures InItems(items, k, false, lower) <==> exists i :: 0 <= i < |items| && Contains(items[i], k)
  {
    assert forall i :: 0 <= i < |items| ==> (InItem(items[i], k, false, lower) <==> Contains(items[i], k));
  }

  /** The loop over the items of a set, up to its end. */
  method MatchItems(k: int, pat: seq<int>, j0: nat, ghost patend: nat, nocase: bool, lower: int -> int,
                    ghost items0: seq<Item>, ghost rest: seq<int>)
    returns (ok: bool, j: nat)
    requires At(pat, j0, patend, SetTail(items0, rest))
    requires forall i :: 0 <= i < |items0| ==> PlainItem(items0[i])
    ensures ok <==> InItems(items0, k, nocase, lower)
    ensures !nocase ==> (ok <==> exists i :: 0 <= i < |items0| && Contains(items0[i], k))
    ensures j0 < j <= patend && At(pat, j, patend, rest)
  {
    hide InItems, At, SetTail, Contains;
    ItemContains(items0, k, lower);
    ok, j := false, j0;
    ghost var items := items0;
    while true
      invariant j0 <= j && At(pat, j, patend, SetTail(items, rest))
      invariant forall i :: 0 <= i < |items| ==> PlainItem(items[i])
      invariant InItems(items0, k, nocase, lower) <==> ok || InItems(items, k, nocase, lower)
      decreases |items|
    {
      FirstItem(items, k, nocase, lower);
      ItemCodes(pat, j, patend, items, rest);
      var c := pat[j];
      j := j + 1;
      if c == M_END {
        break;
      }
      if pat[j] == M_RNG {
        if Fold(c, nocase, lower) <= Fold(k, nocase, lower) <= Fold(pat[j + 1], nocase, lower) {
          ok := true;
        }
        j := j + 2;
      } else if Fold(c, nocase, lower) == Fold(k, nocase, lower) {
        ok := true;
      }
      items := items[1..];
    }
  }

  /** What stands at the beginning of the items of a set. */
  lemma ItemCodes(pat: seq<int>, j: nat, patend: nat, items: seq<Item>, rest: seq<int>)
    requires At(pat, j, patend, SetTail(items, rest))
    requires forall i :: 0 <= i < |items| ==> PlainItem(items[i])
    ensures j < patend <= |pat|
    ensures pat[j] == M_END <==> items == []
    ensures items == [] ==> At(pat, j + 1, patend, rest)
    ensures items != [] ==> j + 1 < patend && (pat[j + 1] == M_RNG <==> items[0].Range?)
    ensures items != [] ==>
      match items[0]
      case Single(c) => pat[j] == c && At(pat, j + 1, patend, SetTail(items[1..], rest))
      case Range(lo, hi) =>
        j + 2 < patend && pat[j] == lo && pat[j + 2] == hi && At(pat, j + 3, patend, SetTail(items[1..], rest))
  {
    hide At;
    if items == [] {
      AtSum(pat, j, patend, [M_END], rest);
    } else {
      AtSum(pat, j, patend, CodeItem(items[0]), SetTail(items[1..], rest));
      NotARange(pat, j + |CodeItem(items[0])|, patend, items[1..], rest);
    }
  }

  lemma NotARange(pat: seq<int>, j: nat, patend: nat, items: seq<Item>, rest: seq<int>)
    requires At(pat, j, patend, SetTail(items, rest))
    requires forall i :: 0 <= i < |items| ==> PlainItem(items[i])
    ensures j < patend <= |pat| && pat[j] != M_RNG
  {
    hide At;
    if items == [] {
      AtSum(pat, j, patend, [M_END], rest);
    } else {
      AtSum(pat, j, patend, CodeItem(items[0]), SetTail(items[1..], rest));
    }
  }

  /** What stands at the beginning of a compiled pattern. */
  lemma NextToken(pat: seq<int>, j: nat, patend: nat, toks: seq<Token>)
    requires At(pat, j, patend, Code(toks)) && Plain(toks) && j < patend
    ensures toks != [] && patend <= |pat| && Plain(toks[1..])
    ensures pat[j] == match toks[0] { case Lit(c) => c case One => M_ONE case Star => M_ALL case Set(_, _) => M_SET }
    ensures toks[0].Lit? ==> IsPlain(pat[j])
    ensures pat[j] == M_ALL <==> toks[0] == Star
    ensures !toks[0].Set? ==> At(pat, j + 1, patend, Code(toks[1..]))
  {
    assert toks != [] by { NotAtEnd(pat, j, patend, toks); }
    assert PlainToken(toks[0]);
    AtSum(pat, j, patend, CodeToken(toks[0]), Code(toks[1..]));
    hide At, SetTail;
  }

  lemma NotAtEnd(pat: seq<int>, j: nat, patend: nat, toks: seq<Token>)
    requires At(pat, j, patend, Code(toks)) && j < patend
    ensures toks != []
  {
  }

  /** What stands at the beginning of a compiled set. */
  lemma NextSet(pat: seq<int>, j: nat, patend: nat, toks: seq<Token>)
    requires At(pat, j, patend, Code(toks)) && Plain(toks) && toks != [] && toks[0].Set?
    ensures j + 1 < patend <= |pat| && (pat[j + 1] == M_NOT <==> toks[0].negated)
    ensures At(pat, j + if toks[0].negated then 2 else 1, patend, SetTail(toks[0].items, Code(toks[1..])))
    ensures forall i :: 0 <= i < |toks[0].items| ==> PlainItem(toks[0].items[i])
  {
    hide At, SetTail;
    assert PlainToken(toks[0]);
    var items, rest := toks[0].items, Code(toks[1..]);
    var head := [M_SET] + if toks[0].negated then [M_NOT] else [];
    SetCode(toks, head);
    AtSum(pat, j, patend, head, SetTail(items, rest));
    NotNegated(pat, j + |head|, patend, items, rest);
  }

  lemma SetCode(toks: seq<Token>, head: seq<int>)
    requires toks != [] && toks[0].Set? && head == [M_SET] + if toks[0].negated then [M_NOT] else []
    ensures Code(toks) == head + SetTail(toks[0].items, Code(toks[1..]))
  {
    hide SetTail;
    var items, rest := toks[0].items, Code(toks[1..]);
    SetTailSum(items, [], rest);
    assert [] + rest == rest;
    assert head + (SetTail(items, []) + rest) == head + SetTail(items, []) + rest;
  }

  lemma NotNegated(pat: seq<int>, j: nat, patend: nat, items: seq<Item>, rest: seq<int>)
    requires At(pat, j, patend, SetTail(items, rest))
    requires forall i :: 0 <= i < |items| ==> PlainItem(items[i])
    ensures j < patend <= |pat| && pat[j] != M_NOT
  {
    hide At;
    if items == [] {
      AtSum(pat, j, patend, [M_END], rest);
    } else {
      AtSum(pat, j, patend, CodeItem(items[0]), SetTail(items[1..], rest));
    }
  }

  /** What the rest of the name, from i on, has to match. */
  ghost predicate MatchesFrom(toks: seq<Token>, name: seq<int>, i: int, nocase: bool, lower: int -> int) {
    0 <= i <= |name| && Matches(toks, name[i..], nocase, lower)
  }

  /** What the rest of the name has to match behind a star: some suffix of it. */
  ghost predicate SomeSuffixMatches(toks: seq<Token>, name: seq<int>, i: int, nocase: bool, lower: int -> int) {
    exists k :: i <= k && MatchesFrom(toks, name, k, nocase, lower)
  }

  /** The loop for a star: some suffix of the name is matched by the rest. */
  method MatchStar(name: seq<int>, i0: nat, pat: seq<int>, j: nat, patend: nat, nocase: bool, lower: int -> int,
                   ghost toks: seq<Token>)
    returns (matched: bool)
    requires i0 <= |name| && At(pat, j, patend, Code(toks)) && Plain(toks)
    ensures matched <==> SomeSuffixMatches(toks, name, i0, nocase, lower)
    decreases patend - j, 3
  {
    NoneBeyond(toks, name, nocase, lower);
    hide At, MatchesFrom;
    var i := i0;
    while true
      invariant i0 <= i <= |name|
      invariant forall k :: i0 <= k < i ==> !MatchesFrom(toks, name, k, nocase, lower)
      decreases |name| - i
    {
      var here := Match(name, i, pat, j, patend, nocase, lower, toks);
      if here {
        return true;
      }
      if i == |name| {
        return false;
      }
      i := i + 1;
    }
  }

  /** Whether a token that is no star accepts the character k. */
  predicate Accepts(t: Token, k: int, nocase: bool, lower: int -> int)
    requires t != Star
  {
    match t
    case One => true
    case Lit(c) => Fold(k, nocase, lower) == Fold(c, nocase, lower)
    case Set(negated, items) => InItems(items, k, nocase, lower) != negated
  }

  lemma MatchesNext(toks: seq<Token>, name: seq<int>, i: nat, nocase: bool, lower: int -> int)
    requires toks != [] && toks[0] != Star && i <= |name|
    ensures MatchesFrom(toks, name, i, nocase, lower) <==>
      i < |name| && Accepts(toks[0], name[i], nocase, lower) && MatchesFrom(toks[1..], name, i + 1, nocase, lower)
  {
    hide InItems;
    if i < |name| {
      assert name[i..][0] == name[i] && name[i..][1..] == name[i + 1..];
    }
  }

  lemma NoneBeyond(toks: seq<Token>, name: seq<int>, nocase: bool, lower: int -> int)
    ensures forall k :: k > |name| ==> !MatchesFrom(toks, name, k, nocase, lower)
  {
  }

  /** The cases of match for one character k of the name; c is the code at j. */
  method MatchOne(k: int, pat: seq<int>, j0: nat, patend: nat, nocase: bool, lower: int -> int, ghost toks: seq<Token>)
    returns (ok: bool, j: nat)
    requires At(pat, j0, patend, Code(toks)) && Plain(toks) && j0 < patend <= |pat| && toks != [] && toks[0] != Star
    ensures ok <==> Accepts(toks[0], k, nocase, lower)
    ensures j0 < j <= patend && At(pat, j, patend, Code(toks[1..]))
  {
    hide At, Code, Plain, InItems;
    NextToken(pat, j0, patend, toks);
    var c := pat[j0];
    j := j0 + 1;
    if c == M_ONE {
      ok := true;
    } else if c == M_SET {
      NextSet(pat, j0, patend, toks);
      var negateRange := pat[j] == M_NOT;
      if negateRange {
        j := j + 1;
      }
      ok, j := MatchItems(k, pat, j, patend, nocase, lower, toks[0].items, Code(toks[1..]));
      ok := ok != negateRange;
    } else {
      ok := Fold(k, nocase, lower) == Fold(c, nocase, lower);
    }
  }

  /** The other cases of match: one character of the name, if there is one left. */
  method MatchNext(name: seq<int>, i: nat, pat: seq<int>, j0: nat, patend: nat, nocase: bool, lower: int -> int,
                   ghost toks: seq<Token>)
    returns (ok: bool, j: nat)
    requires i <= |name| && j0 < patend <= |pat| && At(pat, j0, patend, Code(toks)) && Plain(toks)
    requires toks != [] && toks[0] != Star
    ensures !ok ==> !MatchesFrom(toks, name, i, nocase, lower)
    ensures ok ==> i < |name| && j0 < j <= patend && At(pat, j, patend, Code(toks[1..]))
    ensures ok ==>
      (MatchesFrom(toks, name, i, nocase, lower) <==> MatchesFrom(toks[1..], name, i + 1, nocase, lower))
  {
    hide *;
    MatchesNext(toks, name, i, nocase, lower);
    if i == |name| {
      return false, j0;
    }
    ok, j := MatchOne(name[i], pat, j0, patend, nocase, lower, toks);
  }

  /** The case of a star in match. */
  method MatchAtStar(name: seq<int>, i: nat, pat: seq<int>, j0: nat, patend: nat, nocase: bool, lower: int -> int,
                     ghost toks: seq<Token>)
    returns (matched: bool)
    requires i <= |name| && toks != [] && toks[0] == Star && Plain(toks[1..])
    requires j0 < patend && At(pat, j0 + 1, patend, Code(toks[1..]))
    ensures matched <==> MatchesFrom(toks, name, i, nocase, lower)
    decreases patend - j0, 0
  {
    hide *;
    StarMeaning(toks, name, i, nocase, lower);
    var j := j0 + 1;
    if j == patend {
      NothingAtEnd(pat, j, patend, toks[1..]);
      return true;
    }
    matched := MatchStar(name, i, pat, j, patend, nocase, lower, toks[1..]);
  }

  lemma StarComesNext(pat: seq<int>, j: nat, patend: nat, toks: seq<Token>)
    requires At(pat, j, patend, Code(toks)) && Plain(toks) && j < patend
    ensures toks != [] && patend <= |pat| && Plain(toks[1..])
    ensures pat[j] == M_ALL <==> toks[0] == Star
    ensures toks[0] == Star ==> At(pat, j + 1, patend, Code(toks[1..]))
  {
    hide *;
    NextToken(pat, j, patend, toks);
  }

  /** One round of match: the verdict if it is decided, and otherwise one character is passed. */
  method MatchCode(name: seq<int>, i: nat, pat: seq<int>, j0: nat, patend: nat, nocase: bool, lower: int -> int,
                   ghost toks: seq<Token>)
    returns (decided: bool, matched: bool, j: nat)
    requires i <= |name| && j0 < patend && At(pat, j0, patend, Code(toks)) && Plain(toks)
    ensures decided ==> (matched <==> MatchesFrom(toks, name, i, nocase, lower))
    ensures !decided ==> i < |name| && j0 < j <= patend && toks != [] && Plain(toks[1..])
    ensures !decided ==> At(pat, j, patend, Code(toks[1..]))
    ensures !decided ==>
      (MatchesFrom(toks, name, i, nocase, lower) <==> MatchesFrom(toks[1..], name, i + 1, nocase, lower))
    decreases patend - j0, 1
  {
    hide *;
    StarComesNext(pat, j0, patend, toks);
    if pat[j0] == M_ALL {
      matched := MatchAtStar(name, i, pat, j0, patend, nocase, lower, toks);
      return true, matched, j0;
    }
    matched, j := MatchNext(name, i, pat, j0, patend, nocase, lower, toks);
    decided := !matched;
  }

  /** match: whether the name from i0 on is matched by the codes pat[j0..patend]. */
  method Match(name: seq<int>, i0: nat, pat: seq<int>, j0: nat, patend: nat, nocase: bool, lower: int -> int,
               ghost toks0: seq<Token>)
    returns (matched: bool)
    requires i0 <= |name| && At(pat, j0, patend, Code(toks0)) && Plain(toks0)
    ensures matched <==> MatchesFrom(toks0, name, i0, nocase, lower)
    decreases patend - j0, 2
  {
    hide *;
    AtWithin(pat, j0, patend, Code(toks0));
    var i, j := i0, j0;
    ghost var toks := toks0;
    while j < patend
      invariant i0 <= i <= |name| && j0 <= j <= patend && At(pat, j, patend, Code(toks)) && Plain(toks)
      invariant MatchesFrom(toks0, name, i0, nocase, lower) <==> MatchesFrom(toks, name, i, nocase, lower)
      decreases patend - j
    {
      var decided;
      decided, matched, j := MatchCode(name, i, pat, j, patend, nocase, lower, toks);
      if decided {
        return;
      }
      i, toks := i + 1, toks[1..];
    }
    NothingAtEnd(pat, j, patend, toks);
    EmptyMeaning(name, i, nocase, lower);
    matched := i == |name|;
  }

  lemma StarMeaning(toks: seq<Token>, name: seq<int>, i: nat, nocase: bool, lower: int -> int)
    requires toks != [] && toks[0] == Star && i <= |name|
    ensures MatchesFrom(toks, name, i, nocase, lower) <==> SomeSuffixMatches(toks[1..], name, i, nocase, lower)
    ensures toks[1..] == [] ==> MatchesFrom(toks, name, i, nocase, lower)
  {
    var rest, tail := toks[1..], name[i..];
    forall k | i <= k <= |name| ensures tail[k - i..] == name[k..] {
    }
    if k :| i <= k && MatchesFrom(rest, name, k, nocase, lower) {
      assert Matches(rest, tail[k - i..], nocase, lower);
    }
    if Matches(toks, tail, nocase, lower) {
      var k :| 0 <= k <= |tail| && Matches(rest, tail[k..], nocase, lower);
      assert MatchesFrom(rest, name, i + k, nocase, lower);
    }
    if rest == [] {
      assert tail[|tail|..] == [] && Matches(rest, tail[|tail|..], nocase, lower);
    }
  }

  lemma EmptyMeaning(name: seq<int>, i: nat, nocase: bool, lower: int -> int)
    requires i <= |name|
    ensures MatchesFrom([], name, i, nocase, lower) <==> i == |name|
  {
  }

  lemma NothingAtEnd(pat: seq<int>, j: nat, patend: nat, toks: seq<Token>)
    requires At(pat, j, patend, Code(toks)) && j >= patend
    ensures toks == []
  {
  }
}
