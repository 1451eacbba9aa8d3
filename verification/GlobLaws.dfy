/** What the texts of patterns stand for: laws from which every pattern without open brackets can be worked out. */
module GlobLaws {
  import opened GlobPattern
  import opened GlobCompile

  /** What glob0 and match together decide: the name is one of those that the text p stands for. */
  ghost predicate StandsFor(p: seq<int>, name: seq<int>, nocase: bool, lower: int -> int) {
    Matches(Parse(p, 0), name, nocase, lower)
  }

  // ----- a text is read from left to right -----

  /** b is what stands in c from n on. */
  ghost predicate Behind(c: seq<int>, n: nat, b: seq<int>) {
    |c| == n + |b| && forall i :: n <= i < |c| ==> c[i] == b[i - n]
  }

  lemma CloseShifts(c: seq<int>, n: nat, b: seq<int>, i: nat)
    requires Behind(c, n, b)
    ensures HasClose(c, n + i) <==> HasClose(b, i)
  {
    if HasClose(c, n + i) {
      var k :| n + i <= k < |c| && c[k] == RBRACKET;
      assert b[k - n] == RBRACKET;
    }
    if HasClose(b, i) {
      var k :| i <= k < |b| && b[k] == RBRACKET;
      assert c[n + k] == RBRACKET;
    }
  }

  lemma NextItemShifts(c: seq<int>, n: nat, b: seq<int>, i: nat)
    requires Behind(c, n, b) && i < |b|
    ensures NextItem(c, n + i).0 == NextItem(b, i).0 && NextItem(c, n + i).1 == n + NextItem(b, i).1
  {
  }

  lemma {:induction false} ItemsShift(c: seq<int>, n: nat, b: seq<int>, i: nat)
    requires Behind(c, n, b) && i < |b| && HasClose(b, i + 1)
    ensures n + i < |c| && HasClose(c, n + i + 1)
    ensures Items(c, n + i).0 == Items(b, i).0 && Items(c, n + i).1 == n + Items(b, i).1
    decreases |b| - i
  {
    CloseShifts(c, n, b, i + 1);
    CloseAhead(b, i);
    NextItemShifts(c, n, b, i);
    var j := NextItem(b, i).1;
    assert c[n + j] == b[j];
    hide NextItem, HasClose;
    if b[j] != RBRACKET {
      ItemsShift(c, n, b, j);
    }
  }

  lemma OpenParsed(p: seq<int>, i: nat)
    requires i < |p| && p[i] == LBRACKET && !OpensSet(p, i)
    ensures Parse(p, i) == [Lit(LBRACKET)] + Parse(p, i + 1)
  {
  }

  lemma StartShifts(c: seq<int>, n: nat, b: seq<int>, i: nat)
    requires Behind(c, n, b) && i < |b|
    ensures n + i < |c| && c[n + i] == b[i] && SetStart(c, n + i) == n + SetStart(b, i)
    ensures OpensSet(c, n + i) <==> OpensSet(b, i)
  {
    CloseShifts(c, n, b, SetStart(b, i) + 1);
  }

  /** Where a set ends, and what is then parsed. */
  lemma SetEnds(p: seq<int>, i: nat)
    requires i < |p| && p[i] == LBRACKET && OpensSet(p, i)
    ensures var start := SetStart(p, i);
      && start < |p| && HasClose(p, start + 1) && i < Items(p, start).1 <= |p|
      && Parse(p, i) == [Set(start == i + 2, Items(p, start).0)] + Parse(p, Items(p, start).1)
  {
    hide Items;
    SetParsed(p, i);
  }

  lemma ParseEnds(p: seq<int>)
    ensures Parse(p, |p|) == []
  {
  }

  lemma BehindAt(c: seq<int>, n: nat, b: seq<int>, i: nat)
    requires Behind(c, n, b) && i <= |b|
    ensures n + i <= |c| && (i < |b| ==> n + i < |c| && c[n + i] == b[i])
    ensures i == |b| <==> n + i == |c|
  {
  }

  lemma {:induction false} ParseShifts(c: seq<int>, n: nat, b: seq<int>, i: nat)
    requires Behind(c, n, b) && i <= |b|
    ensures n + i <= |c| && Parse(c, n + i) == Parse(b, i)
    decreases |b| - i
  {
    hide *;
    BehindAt(c, n, b, i);
    if i == |b| {
      ParseEnds(b);
      ParseEnds(c);
    } else {
      StartShifts(c, n, b, i);
      if b[i] != LBRACKET {
        ParseShifts(c, n, b, i + 1);
        ParseOne(b, i);
        ParseOne(c, n + i);
      } else if OpensSet(b, i) {
        SetEnds(b, i);
        SetEnds(c, n + i);
        ItemsShift(c, n, b, SetStart(b, i));
        ParseShifts(c, n, b, Items(b, SetStart(b, i)).1);
      } else {
        ParseShifts(c, n, b, i + 1);
        OpenParsed(b, i);
        OpenParsed(c, n + i);
      }
    }
  }

  lemma ParseOfSecond(a: seq<int>, b: seq<int>)
    ensures Parse(a + b, |a|) == Parse(b, 0)
  {
    ParseShifts(a + b, |a|, b, 0);
  }

  // ----- a text that ends before another begins -----

  /** From i on, every bracket that is opened in a is closed in a. */
  ghost predicate Closed(a: seq<int>, i: nat)
    requires i <= |a|
    decreases |a| - i
  {
    i == |a| ||
    if a[i] == LBRACKET then OpensSet(a, i) && Closed(a, Items(a, SetStart(a, i)).1) else Closed(a, i + 1)
  }

  lemma CloseStays(a: seq<int>, b: seq<int>, i: nat)
    requires HasClose(a, i)
    ensures HasClose(a + b, i)
  {
    var k :| i <= k < |a| && a[k] == RBRACKET;
    assert (a + b)[k] == RBRACKET;
  }

  lemma NextItemStays(a: seq<int>, b: seq<int>, i: nat)
    requires i < |a| && HasClose(a, i + 1)
    ensures NextItem(a + b, i) == NextItem(a, i)
  {
    var k :| i + 1 <= k < |a| && a[k] == RBRACKET;
  }

  lemma {:induction false} ItemsStay(a: seq<int>, b: seq<int>, i: nat)
    requires i < |a| && HasClose(a, i + 1)
    ensures HasClose(a + b, i + 1) && Items(a + b, i) == Items(a, i)
    decreases |a| - i
  {
    CloseStays(a, b, i + 1);
    NextItemStays(a, b, i);
    CloseAhead(a, i);
    var j := NextItem(a, i).1;
    assert (a + b)[j] == a[j];
    hide NextItem, HasClose;
    if a[j] != RBRACKET {
      ItemsStay(a, b, j);
    }
  }

  lemma {:induction false} ParseOfSum(a: seq<int>, b: seq<int>, i: nat)
    requires i <= |a| && Closed(a, i)
    ensures Parse(a + b, i) == Parse(a, i) + Parse(b, 0)
    decreases |a| - i
  {
    if i == |a| {
      ParseOfSecond(a, b);
    } else {
      assert (a + b)[i] == a[i];
      if a[i] == LBRACKET {
        SetStays(a, b, i);
        var (items, k) := Items(a, SetStart(a, i));
        ParseOfSum(a, b, k);
        TokensOfSum(Set(SetStart(a, i) == i + 2, items), Parse(a, k), Parse(b, 0));
      } else {
        ParseOfSum(a, b, i + 1);
        ParseOne(a, i);
        ParseOne(a + b, i);
        TokensOfSum(Parse(a, i)[0], Parse(a, i + 1), Parse(b, 0));
      }
    }
  }

  lemma TokensOfSum(t: Token, a: seq<Token>, b: seq<Token>)
    ensures [t] + (a + b) == [t] + a + b
  {
  }

  lemma SetStays(a: seq<int>, b: seq<int>, i: nat)
    requires i < |a| && a[i] == LBRACKET && OpensSet(a, i)
    ensures OpensSet(a + b, i) && SetStart(a + b, i) == SetStart(a, i)
    ensures Items(a + b, SetStart(a, i)) == Items(a, SetStart(a, i))
  {
    assert i + 1 < |a| && (a + b)[i + 1] == a[i + 1];
    ItemsStay(a, b, SetStart(a, i));
  }

  // ----- one pattern behind another -----

  ghost predicate SplitsAt(s: seq<Token>, t: seq<Token>, name: seq<int>, nocase: bool, lower: int -> int, k: int) {
    0 <= k <= |name| && Matches(s, name[..k], nocase, lower) && Matches(t, name[k..], nocase, lower)
  }

  lemma {:induction false} TokensSplit(s: seq<Token>, t: seq<Token>, name: seq<int>, nocase: bool, lower: int -> int)
    ensures Matches(s + t, name, nocase, lower) <==> exists k :: SplitsAt(s, t, name, nocase, lower, k)
    decreases |s|
  {
    if s == [] {
      NothingSplits(t, name, nocase, lower);
    } else if s[0] == Star {
      StarSplits(s, t, name, nocase, lower);
    } else {
      OneSplits(s, t, name, nocase, lower);
    }
  }

  lemma NothingSplits(t: seq<Token>, name: seq<int>, nocase: bool, lower: int -> int)
    ensures Matches([] + t, name, nocase, lower) <==> exists k :: SplitsAt([], t, name, nocase, lower, k)
  {
    assert [] + t == t && name[0..] == name && name[..0] == [];
    if Matches(t, name, nocase, lower) {
      assert SplitsAt([], t, name, nocase, lower, 0);
    }
    if k :| SplitsAt([], t, name, nocase, lower, k) {
      assert k == 0;
    }
  }

  /** A token that is no star takes the first character. */
  lemma FirstTaken(s: seq<Token>, name: seq<int>, nocase: bool, lower: int -> int)
    requires s != [] && s[0] != Star
    ensures Matches(s, name, nocase, lower) <==>
      name != [] && Accepts(s[0], name[0], nocase, lower) && Matches(s[1..], name[1..], nocase, lower)
  {
  }

  lemma OneSplits(s: seq<Token>, t: seq<Token>, name: seq<int>, nocase: bool, lower: int -> int)
    requires s != [] && s[0] != Star
    ensures Matches(s + t, name, nocase, lower) <==> exists k :: SplitsAt(s, t, name, nocase, lower, k)
    decreases |s|, 0
  {
    hide Accepts, Matches;
    assert (s + t)[0] == s[0] && (s + t)[1..] == s[1..] + t;
    FirstTaken(s + t, name, nocase, lower);
    FirstTaken(s, [], nocase, lower);
    if name == [] {
      forall k ensures !SplitsAt(s, t, name, nocase, lower, k) {
        if 0 <= k <= |name| {
          assert name[..k] == [];
        }
      }
    } else {
      var rest := name[1..];
      TokensSplit(s[1..], t, rest, nocase, lower);
      if k :| SplitsAt(s, t, name, nocase, lower, k) {
        OneSplitsAt(s, t, name, nocase, lower, k);
      }
      if Accepts(s[0], name[0], nocase, lower) {
        if k :| SplitsAt(s[1..], t, rest, nocase, lower, k) {
          OneSplitsAt(s, t, name, nocase, lower, k + 1);
        }
      }
    }
  }

  lemma OneSplitsAt(s: seq<Token>, t: seq<Token>, name: seq<int>, nocase: bool, lower: int -> int, k: int)
    requires s != [] && s[0] != Star && name != []
    ensures SplitsAt(s, t, name, nocase, lower, k) <==>
      Accepts(s[0], name[0], nocase, lower) && SplitsAt(s[1..], t, name[1..], nocase, lower, k - 1)
  {
    hide Accepts, Matches;
    if k == 0 {
      assert name[..0] == [];
      FirstTaken(s, [], nocase, lower);
    } else if 0 < k <= |name| {
      FirstTaken(s, name[..k], nocase, lower);
      assert name[..k][0] == name[0] && name[..k][1..] == name[1..][..k - 1] && name[k..] == name[1..][k - 1..];
    }
  }

  lemma StarTakes(s: seq<Token>, name: seq<int>, nocase: bool, lower: int -> int)
    requires s != [] && s[0] == Star
    ensures Matches(s, name, nocase, lower) <==>
      exists k :: 0 <= k <= |name| && Matches(s[1..], name[k..], nocase, lower)
  {
  }

  lemma StarSplits(s: seq<Token>, t: seq<Token>, name: seq<int>, nocase: bool, lower: int -> int)
    requires s != [] && s[0] == Star
    ensures Matches(s + t, name, nocase, lower) <==> exists k :: SplitsAt(s, t, name, nocase, lower, k)
    decreases |s|, 0
  {
    hide Matches;
    var rest := s[1..];
    assert (s + t)[0] == Star && (s + t)[1..] == rest + t;
    StarTakes(s + t, name, nocase, lower);
    if Matches(s + t, name, nocase, lower) {
      var j :| 0 <= j <= |name| && Matches(rest + t, name[j..], nocase, lower);
      TokensSplit(rest, t, name[j..], nocase, lower);
      var k :| SplitsAt(rest, t, name[j..], nocase, lower, k);
      StarTakes(s, name[..j + k], nocase, lower);
      assert name[..j + k][j..] == name[j..][..k] && name[j + k..] == name[j..][k..];
      assert SplitsAt(s, t, name, nocase, lower, j + k);
    }
    if k :| SplitsAt(s, t, name, nocase, lower, k) {
      StarTakes(s, name[..k], nocase, lower);
      var j :| 0 <= j <= k && Matches(rest, name[..k][j..], nocase, lower);
      assert name[..k][j..] == name[j..][..k - j] && name[k..] == name[j..][k - j..];
      assert SplitsAt(rest, t, name[j..], nocase, lower, k - j);
      TokensSplit(rest, t, name[j..], nocase, lower);
    }
  }

  /** One text behind another stands for the names of the first followed by those of the second. */
  lemma Concatenation(a: seq<int>, b: seq<int>, name: seq<int>, nocase: bool, lower: int -> int)
    requires Closed(a, 0)
    ensures StandsFor(a + b, name, nocase, lower) <==>
      exists k :: 0 <= k <= |name| && StandsFor(a, name[..k], nocase, lower) && StandsFor(b, name[k..], nocase, lower)
  {
    hide Matches, Parse;
    ParseOfSum(a, b, 0);
    var s, t := Parse(a, 0), Parse(b, 0);
    TokensSplit(s, t, name, nocase, lower);
    if k :| SplitsAt(s, t, name, nocase, lower, k) {
      assert StandsFor(a, name[..k], nocase, lower) && StandsFor(b, name[k..], nocase, lower);
    }
    if k :| 0 <= k <= |name| && StandsFor(a, name[..k], nocase, lower) && StandsFor(b, name[k..], nocase, lower) {
      assert SplitsAt(s, t, name, nocase, lower, k);
    }
  }

  // ----- texts of one character -----

  lemma OnlyToken(t: Token, name: seq<int>, nocase: bool, lower: int -> int)
    requires t != Star
    ensures Matches([t], name, nocase, lower) <==> |name| == 1 && Accepts(t, name[0], nocase, lower)
  {
    FirstTaken([t], name, nocase, lower);
    assert [t][1..] == [];
    assert name != [] ==> (name[1..] == [] <==> |name| == 1);
  }

  /** The empty text stands for the empty name. */
  lemma EmptyText(name: seq<int>, nocase: bool, lower: int -> int)
    ensures StandsFor([], name, nocase, lower) <==> name == []
  {
  }

  /** A question mark stands for the names of length one. */
  lemma QuestionMark(name: seq<int>, nocase: bool, lower: int -> int)
    ensures StandsFor([QUESTION], name, nocase, lower) <==> |name| == 1
  {
    ParseOne([QUESTION], 0);
    assert Parse([QUESTION], 0) == [One];
    OnlyToken(One, name, nocase, lower);
  }

  /** A star stands for every name. */
  lemma StarAlone(name: seq<int>, nocase: bool, lower: int -> int)
    ensures StandsFor([STAR], name, nocase, lower)
  {
    ParseOne([STAR], 0);
    assert Parse([STAR], 0) == [Star];
    assert [Star][1..] == [] && name[|name|..] == [];
    assert Matches([], name[|name|..], nocase, lower);
  }

  /** Any other character stands for itself without its quoting bits, and if case does not count for its other forms. */
  lemma OtherCharacter(c: int, name: seq<int>, nocase: bool, lower: int -> int)
    requires c != LBRACKET && c != QUESTION && c != STAR
    ensures StandsFor([c], name, nocase, lower) <==>
      if nocase then |name| == 1 && lower(name[0]) == lower(Char(c)) else name == [Char(c)]
  {
    ParseOne([c], 0);
    assert Parse([c], 0) == [Lit(Char(c))];
    OnlyToken(Lit(Char(c)), name, nocase, lower);
  }

  // ----- sets -----

  /** What can stand between brackets: a closing one only in the first place. */
  ghost predicate IsBody(b: seq<int>) {
    b != [] && forall i :: 1 <= i < |b| ==> b[i] != RBRACKET
  }

  function SetText(b: seq<int>): seq<int> {
    [LBRACKET] + b + [RBRACKET]
  }

  function NotText(b: seq<int>): seq<int> {
    [LBRACKET, NOT] + b + [RBRACKET]
  }

  /** The items of a body. */
  function BodyItems(b: seq<int>): seq<Item> {
    if b == [] then []
    else if |b| >= 3 && b[1] == RANGE then [Range(Char(b[0]), Char(b[2]))] + BodyItems(b[3..])
    else [Single(Char(b[0]))] + BodyItems(b[1..])
  }

  lemma BodyStep(p: seq<int>, i: nat)
    requires i + 1 < |p| && p[|p| - 1] == RBRACKET && forall k :: i < k < |p| - 1 ==> p[k] != RBRACKET
    ensures var (item, j) := NextItem(p, i);
      i < j < |p| && BodyItems(p[i..|p| - 1]) == [item] + BodyItems(p[i..|p| - 1][j - i..])
  {
    var b := p[i..|p| - 1];
    assert |b| >= 3 ==> b[1] == p[i + 1] && b[2] == p[i + 2];
  }

  lemma {:induction false} ItemsOfBody(p: seq<int>, i: nat)
    requires i + 1 < |p| && p[|p| - 1] == RBRACKET && forall k :: i < k < |p| - 1 ==> p[k] != RBRACKET
    ensures HasClose(p, i + 1) && Items(p, i) == (BodyItems(p[i..|p| - 1]), |p|)
    decreases |p| - i
  {
    var b := p[i..|p| - 1];
    CloseAhead(p, i);
    var (item, j) := NextItem(p, i);
    BodyStep(p, i);
    if j < |p| - 1 {
      assert b[j - i..] == p[j..|p| - 1];
      ItemsOfBody(p, j);
    } else {
      assert b[j - i..] == [] && [item] + BodyItems([]) == [item];
    }
  }

  lemma SetParse(p: seq<int>, start: nat)
    requires |p| >= 3 && p[0] == LBRACKET && start == SetStart(p, 0) && start + 1 < |p|
    requires p[|p| - 1] == RBRACKET && forall k :: start < k < |p| - 1 ==> p[k] != RBRACKET
    ensures OpensSet(p, 0) && Parse(p, 0) == [Set(start == 2, BodyItems(p[start..|p| - 1]))] && Closed(p, 0)
  {
    ItemsOfBody(p, start);
    SetParsed(p, 0);
    assert Parse(p, |p|) == [];
  }

  /** A set stands for some names of length one. */
  lemma SetMeaning(b: seq<int>, name: seq<int>, nocase: bool, lower: int -> int)
    requires IsBody(b) && b[0] != NOT
    ensures Closed(SetText(b), 0)
    ensures StandsFor(SetText(b), name, nocase, lower) <==>
      |name| == 1 && InItems(BodyItems(b), name[0], nocase, lower)
  {
    var p := SetText(b);
    assert p[1] == b[0] && p[1..|p| - 1] == b;
    assert forall k :: 1 < k < |p| - 1 ==> p[k] == b[k - 1];
    SetParse(p, 1);
    hide InItems;
    OnlyToken(Set(false, BodyItems(b)), name, nocase, lower);
  }

  lemma NotMeaning(b: seq<int>, name: seq<int>, nocase: bool, lower: int -> int)
    requires IsBody(b)
    ensures Closed(NotText(b), 0)
    ensures StandsFor(NotText(b), name, nocase, lower) <==>
      |name| == 1 && !InItems(BodyItems(b), name[0], nocase, lower)
  {
    var p := NotText(b);
    assert p[1] == NOT && p[2..|p| - 1] == b;
    assert forall k :: 2 < k < |p| - 1 ==> p[k] == b[k - 2];
    SetParse(p, 2);
    hide InItems;
    OnlyToken(Set(true, BodyItems(b)), name, nocase, lower);
  }

  /** A set with an exclamation mark stands for the names of length one that the set without it does not stand for. */
  lemma Negation(b: seq<int>, name: seq<int>, nocase: bool, lower: int -> int)
    requires IsBody(b) && b[0] != NOT
    ensures StandsFor(NotText(b), name, nocase, lower) <==>
      |name| == 1 && !StandsFor(SetText(b), name, nocase, lower)
  {
    hide *;
    SetMeaning(b, name, nocase, lower);
    NotMeaning(b, name, nocase, lower);
  }

  lemma OnlyItem(i: Item, k: int, nocase: bool, lower: int -> int)
    ensures InItems([i], k, nocase, lower) <==> InItem(i, k, nocase, lower)
  {
    FirstItem([i], k, nocase, lower);
    assert [i][1..] == [];
  }

  /** A set of one character stands for what this character stands for elsewhere. */
  lemma SetOfOne(c: int, name: seq<int>, nocase: bool, lower: int -> int)
    requires c != NOT
    ensures StandsFor(SetText([c]), name, nocase, lower) <==>
      if nocase then |name| == 1 && lower(name[0]) == lower(Char(c)) else name == [Char(c)]
  {
    SetMeaning([c], name, nocase, lower);
    assert BodyItems([c]) == [Single(Char(c))];
    if |name| == 1 {
      OnlyItem(Single(Char(c)), name[0], nocase, lower);
    }
  }

  /** The same with an exclamation mark, which can be the character that is left out too. */
  lemma NotOfOne(c: int, name: seq<int>, nocase: bool, lower: int -> int)
    ensures StandsFor(NotText([c]), name, nocase, lower) <==>
      |name| == 1 && if nocase then lower(name[0]) != lower(Char(c)) else name != [Char(c)]
  {
    NotMeaning([c], name, nocase, lower);
    assert BodyItems([c]) == [Single(Char(c))];
    if |name| == 1 {
      OnlyItem(Single(Char(c)), name[0], nocase, lower);
    }
  }

  lemma RangeBody(lo: int, hi: int)
    requires hi != RBRACKET
    ensures IsBody([lo, RANGE, hi]) && BodyItems([lo, RANGE, hi]) == [Range(Char(lo), Char(hi))]
  {
    assert [lo, RANGE, hi][3..] == [];
  }

  /** If case counts, a range stands for the characters from the first to the last, both of them included. */
  lemma RangeOfCharacters(lo: int, hi: int, name: seq<int>, lower: int -> int)
    requires lo != NOT && hi != RBRACKET
    ensures StandsFor(SetText([lo, RANGE, hi]), name, false, lower) <==>
      exists c :: Char(lo) <= c <= Char(hi) && name == [c]
    ensures Char(lo) <= Char(hi) ==> StandsFor(SetText([lo, RANGE, hi]), [Char(lo)], false, lower)
    ensures Char(lo) <= Char(hi) ==> StandsFor(SetText([lo, RANGE, hi]), [Char(hi)], false, lower)
  {
    RangeBody(lo, hi);
    forall n
      ensures StandsFor(SetText([lo, RANGE, hi]), n, false, lower) <==> |n| == 1 && Char(lo) <= n[0] <= Char(hi)
    {
      SetMeaning([lo, RANGE, hi], n, false, lower);
      if |n| == 1 {
        OnlyItem(Range(Char(lo), Char(hi)), n[0], false, lower);
      }
    }
    assert |name| == 1 ==> name == [name[0]];
  }

  /** If case does not count, a range stands for the characters whose lower case form is between those of its ends. */
  lemma RangeWithoutCase(lo: int, hi: int, name: seq<int>, lower: int -> int)
    requires lo != NOT && hi != RBRACKET
    ensures StandsFor(SetText([lo, RANGE, hi]), name, true, lower) <==>
      |name| == 1 && lower(Char(lo)) <= lower(name[0]) <= lower(Char(hi))
  {
    RangeBody(lo, hi);
    SetMeaning([lo, RANGE, hi], name, true, lower);
    if |name| == 1 {
      OnlyItem(Range(Char(lo), Char(hi)), name[0], true, lower);
    }
  }

  /** Without regard to case, a range has its own ends exactly if their lower case forms are in order. */
  lemma RangeHasItsEnds(lo: int, hi: int, lower: int -> int)
    requires lo != NOT && hi != RBRACKET
    ensures StandsFor(SetText([lo, RANGE, hi]), [Char(lo)], true, lower) <==> lower(Char(lo)) <= lower(Char(hi))
    ensures StandsFor(SetText([lo, RANGE, hi]), [Char(hi)], true, lower) <==> lower(Char(lo)) <= lower(Char(hi))
  {
    RangeWithoutCase(lo, hi, [Char(lo)], lower);
    RangeWithoutCase(lo, hi, [Char(hi)], lower);
  }

  /** The lower case forms of the letters without accents. */
  function AsciiLower(c: int): int {
    if 65 <= c <= 90 then c + 32 else c
  }

  /** The range from Z to a has both letters if case counts, but it stands for nothing if case does not count. */
  lemma RangeFromZ(name: seq<int>)
    ensures StandsFor(SetText([90, RANGE, 97]), [90], false, AsciiLower)
    ensures !StandsFor(SetText([90, RANGE, 97]), name, true, AsciiLower)
  {
    RangeOfCharacters(90, 97, [90], AsciiLower);
    RangeWithoutCase(90, 97, name, AsciiLower);
  }

  // ----- sets of several items -----

  lemma {:induction false} ItemsOfSum(items: seq<Item>, more: seq<Item>, k: int, nocase: bool, lower: int -> int)
    ensures InItems(items + more, k, nocase, lower) <==>
      InItems(items, k, nocase, lower) || InItems(more, k, nocase, lower)
  {
    hide InItems;
    FirstItem(items, k, nocase, lower);
    if items == [] {
      assert items + more == more;
    } else {
      FirstItem(items + more, k, nocase, lower);
      assert (items + more)[1..] == items[1..] + more;
      ItemsOfSum(items[1..], more, k, nocase, lower);
    }
  }

  /** The first item of a body, and how many characters it takes. */
  function FirstOfBody(b: seq<int>): (Item, nat)
    requires b != []
  {
    if |b| >= 3 && b[1] == RANGE then (Range(Char(b[0]), Char(b[2])), 3) else (Single(Char(b[0])), 1)
  }

  lemma BodyUnfolds(b: seq<int>)
    requires b != []
    ensures var (item, width) := FirstOfBody(b);
      1 <= width <= |b| && BodyItems(b) == [item] + BodyItems(b[width..])
  {
  }

  lemma FirstOfSum(a: seq<int>, b: seq<int>)
    requires a != [] && b != [] && (|a| == 1 || a[|a| - 1] != RANGE) && (|b| == 1 || b[0] != RANGE)
    ensures FirstOfBody(a + b) == FirstOfBody(a)
  {
    if |a| >= 3 {
      assert (a + b)[1] == a[1];
    } else if |a| == 2 {
      assert (a + b)[1] == a[1];
    } else {
      assert (a + b)[1] == b[0];
    }
  }

  lemma {:induction false} BodyOfSum(a: seq<int>, b: seq<int>)
    requires a != [] && b != [] && (|a| == 1 || a[|a| - 1] != RANGE) && (|b| == 1 || b[0] != RANGE)
    ensures BodyItems(a + b) == BodyItems(a) + BodyItems(b)
    decreases |a|
  {
    hide BodyItems, FirstOfBody;
    BodyUnfolds(a);
    BodyUnfolds(a + b);
    FirstOfSum(a, b);
    var (item, width) := FirstOfBody(a);
    var rest := a[width..];
    assert (a + b)[width..] == rest + b;
    if rest == [] {
      assert rest + b == b;
      NoItemsOfBody();
    } else {
      assert rest[|rest| - 1] == a[|a| - 1];
      BodyOfSum(rest, b);
    }
    assert [item] + (BodyItems(rest) + BodyItems(b)) == [item] + BodyItems(rest) + BodyItems(b);
  }

  lemma NoItemsOfBody()
    ensures BodyItems([]) == []
  {
  }

  /** A set of two parts stands for what one part or the other stands for, if no range reaches across. */
  lemma Union(a: seq<int>, b: seq<int>, name: seq<int>, nocase: bool, lower: int -> int)
    requires IsBody(a + b) && a != [] && b != [] && a[0] != NOT && b[0] != NOT
    requires (|a| == 1 || a[|a| - 1] != RANGE) && (|b| == 1 || b[0] != RANGE)
    ensures StandsFor(SetText(a + b), name, nocase, lower) <==>
      StandsFor(SetText(a), name, nocase, lower) || StandsFor(SetText(b), name, nocase, lower)
  {
    assert forall i :: 1 <= i < |a| ==> a[i] == (a + b)[i];
    assert forall i :: 1 <= i < |b| ==> b[i] == (a + b)[|a| + i];
    assert IsBody(a) && IsBody(b) && (a + b)[0] == a[0];
    hide *;
    BodyOfSum(a, b);
    SetMeaning(a, name, nocase, lower);
    SetMeaning(b, name, nocase, lower);
    SetMeaning(a + b, name, nocase, lower);
    if |name| == 1 {
      ItemsOfSum(BodyItems(a), BodyItems(b), name[0], nocase, lower);
    }
  }

  /** With an exclamation mark it stands for what both parts stand for. */
  lemma Intersection(a: seq<int>, b: seq<int>, name: seq<int>, nocase: bool, lower: int -> int)
    requires IsBody(a + b) && a != [] && b != []
    requires (|a| == 1 || a[|a| - 1] != RANGE) && (|b| == 1 || b[0] != RANGE)
    ensures StandsFor(NotText(a + b), name, nocase, lower) <==>
      StandsFor(NotText(a), name, nocase, lower) && StandsFor(NotText(b), name, nocase, lower)
  {
    assert forall i :: 1 <= i < |a| ==> a[i] == (a + b)[i];
    assert forall i :: 1 <= i < |b| ==> b[i] == (a + b)[|a| + i];
    assert IsBody(a) && IsBody(b);
    hide *;
    BodyOfSum(a, b);
    NotMeaning(a, name, nocase, lower);
    NotMeaning(b, name, nocase, lower);
    NotMeaning(a + b, name, nocase, lower);
    if |name| == 1 {
      ItemsOfSum(BodyItems(a), BodyItems(b), name[0], nocase, lower);
    }
  }

  /** A bracket that is not closed stands for itself. */
  lemma OpenBracket(b: seq<int>, name: seq<int>, nocase: bool, lower: int -> int)
    requires !OpensSet([LBRACKET] + b, 0)
    ensures StandsFor([LBRACKET] + b, name, nocase, lower) <==>
      name != [] && Fold(name[0], nocase, lower) == Fold(LBRACKET, nocase, lower) &&
      StandsFor(b, name[1..], nocase, lower)
  {
    var p := [LBRACKET] + b;
    ParseOfSecond([LBRACKET], b);
    assert Parse(p, 0) == [Lit(LBRACKET)] + Parse(b, 0);
    hide Matches, Parse;
    LiteralMeaning(LBRACKET, Parse(b, 0), name, nocase, lower);
  }

  // ----- case -----

  /** Names that differ only in what the comparison does not see are matched alike. */
  lemma {:induction false} SeenAlike(toks: seq<Token>, name: seq<int>, other: seq<int>, nocase: bool, lower: int -> int)
    requires |name| == |other|
    requires forall i :: 0 <= i < |name| ==> Fold(name[i], nocase, lower) == Fold(other[i], nocase, lower)
    ensures Matches(toks, name, nocase, lower) <==> Matches(toks, other, nocase, lower)
    decreases |toks|
  {
    if toks == [] {
    } else if toks[0] == Star {
      forall k | 0 <= k <= |name|
        ensures Matches(toks[1..], name[k..], nocase, lower) <==> Matches(toks[1..], other[k..], nocase, lower)
      {
        SeenAlike(toks[1..], name[k..], other[k..], nocase, lower);
      }
    } else {
      FirstTaken(toks, name, nocase, lower);
      FirstTaken(toks, other, nocase, lower);
      if name != [] {
        SeenAlike(toks[1..], name[1..], other[1..], nocase, lower);
      }
    }
  }

  /** Without regard to case, names with the same lower case forms are treated alike. */
  lemma CaseIsIgnored(p: seq<int>, name: seq<int>, other: seq<int>, lower: int -> int)
    requires |name| == |other| && forall i :: 0 <= i < |name| ==> lower(name[i]) == lower(other[i])
    ensures StandsFor(p, name, true, lower) <==> StandsFor(p, other, true, lower)
  {
    SeenAlike(Parse(p, 0), name, other, true, lower);
  }
}
