/** The brace expansion of globexp1 and globexp2. */
module BraceExpansion {
  const LBRACE: int := 123
  const RBRACE: int := 125
  const COMMA: int := 44
  const LBRACKET: int := 91

  const MAXPATHLEN: nat := 255

  type Text = seq<int>

  /** Patterns with balanced braces: a character or a brace, and the rest. */
  datatype Pattern = End | Ch(c: int, rest: Pattern) | Brace(alts: Alts, rest: Pattern)

  /** The alternatives of a brace. */
  datatype Alts = Last(p: Pattern) | More(p: Pattern, others: Alts)

  function Render(p: Pattern): Text {
    match p
    case End => []
    case Ch(c, rest) => [c] + Render(rest)
    case Brace(alts, rest) => [LBRACE] + RenderAlts(alts) + [RBRACE] + Render(rest)
  }

  function RenderAlts(alts: Alts): Text {
    match alts
    case Last(p) => Render(p)
    case More(p, others) => Render(p) + [COMMA] + RenderAlts(others)
  }

  /** Characters are no braces or brackets, and within braces commas separate alternatives. */
  predicate Proper(p: Pattern, inner: bool) {
    match p
    case End => true
    case Ch(c, rest) => c != LBRACE && c != RBRACE && c != LBRACKET && (inner ==> c != COMMA) && Proper(rest, inner)
    case Brace(alts, rest) => ProperAlts(alts) && Proper(rest, inner)
  }

  predicate ProperAlts(alts: Alts) {
    match alts
    case Last(p) => Proper(p, true)
    case More(p, others) => Proper(p, true) && ProperAlts(others)
  }

  // ----- the expansion of the C shell -----

  /** All concatenations, the first factor varying slowest. */
  function Product(a: seq<Text>, b: seq<Text>): seq<Text> {
    if a == [] then [] else Prefixed(a[0], b) + Product(a[1..], b)
  }

  function Prefixed(t: Text, b: seq<Text>): (r: seq<Text>)
    ensures |r| == |b| && forall i :: 0 <= i < |b| ==> r[i] == t + b[i]
  {
    seq(|b|, i requires 0 <= i < |b| => t + b[i])
  }

  /** A brace stands for each of its alternatives in turn. */
  function Expansions(p: Pattern): seq<Text> {
    match p
    case End => [[]]
    case Ch(c, rest) => Prefixed([c], Expansions(rest))
    case Brace(alts, rest) => Product(ExpansionsOfAlts(alts), Expansions(rest))
  }

  function ExpansionsOfAlts(alts: Alts): seq<Text> {
    match alts
    case Last(p) => Expansions(p)
    case More(p, others) => Expansions(p) + ExpansionsOfAlts(others)
  }

  function Join(p: Pattern, q: Pattern): Pattern {
    match p
    case End => q
    case Ch(c, rest) => Ch(c, Join(rest, q))
    case Brace(alts, rest) => Brace(alts, Join(rest, q))
  }

  lemma Associates(a: Text, b: Text, c: Text)
    ensures a + (b + c) == a + b + c
  {
  }

  lemma {:induction false} RenderJoin(p: Pattern, q: Pattern)
    ensures Render(Join(p, q)) == Render(p) + Render(q)
  {
    match p
    case End =>
    case Ch(c, rest) =>
      RenderJoin(rest, q);
      Associates([c], Render(rest), Render(q));
    case Brace(alts, rest) =>
      RenderJoin(rest, q);
      Associates([LBRACE] + RenderAlts(alts) + [RBRACE], Render(rest), Render(q));
  }

  lemma {:induction false} ProductOfSum(a: seq<Text>, b: seq<Text>, c: seq<Text>)
    ensures Product(a + b, c) == Product(a, c) + Product(b, c)
  {
    if a == [] {
      assert a + b == b;
    } else {
      ProductOfSum(a[1..], b, c);
      assert (a + b)[1..] == a[1..] + b && (a + b)[0] == a[0];
      var x, y, z := Prefixed(a[0], c), Product(a[1..], c), Product(b, c);
      assert x + (y + z) == x + y + z;
    }
  }

  lemma {:induction false} ProductOfPrefixed(t: Text, a: seq<Text>, b: seq<Text>)
    ensures Product(Prefixed(t, a), b) == Prefixed(t, Product(a, b))
  {
    if a != [] {
      ProductOfPrefixed(t, a[1..], b);
      var pa := Prefixed(t, a);
      assert pa[1..] == Prefixed(t, a[1..]);
      var x, y := Prefixed(t + a[0], b), Prefixed(t, Prefixed(a[0], b));
      forall i | 0 <= i < |b| ensures x[i] == y[i] {
        assert t + a[0] + b[i] == t + (a[0] + b[i]);
      }
      assert x == y;
      var u, v := Prefixed(a[0], b), Product(a[1..], b);
      assert Prefixed(t, u + v) == Prefixed(t, u) + Prefixed(t, v);
    }
  }

  lemma {:induction false} ProductAssociates(a: seq<Text>, b: seq<Text>, c: seq<Text>)
    ensures Product(Product(a, b), c) == Product(a, Product(b, c))
  {
    if a != [] {
      ProductAssociates(a[1..], b, c);
      ProductOfSum(Prefixed(a[0], b), Product(a[1..], b), c);
      ProductOfPrefixed(a[0], b, c);
    }
  }

  lemma ProductOfOne(t: Text, b: seq<Text>)
    ensures Product([t], b) == Prefixed(t, b)
    ensures Prefixed([], b) == b
  {
    assert [t][1..] == [] && Product([t][1..], b) == [];
    forall i | 0 <= i < |b| ensures Prefixed([], b)[i] == b[i] {
      assert [] + b[i] == b[i];
    }
  }

  lemma {:induction false} ExpansionsOfJoin(p: Pattern, q: Pattern)
    ensures Expansions(Join(p, q)) == Product(Expansions(p), Expansions(q))
  {
    match p
    case End => ProductOfOne([], Expansions(q));
    case Ch(c, rest) =>
      ExpansionsOfJoin(rest, q);
      ProductOfPrefixed([c], Expansions(rest), Expansions(q));
    case Brace(alts, rest) =>
      ExpansionsOfJoin(rest, q);
      ProductAssociates(ExpansionsOfAlts(alts), Expansions(rest), Expansions(q));
  }

  // ----- what the code hands on -----

  const EMPTY_BRACES := Brace(Last(End), End)

  function AltList(alts: Alts): (r: seq<Pattern>)
    ensures |r| > 0
  {
    match alts
    case Last(p) => [p]
    case More(p, others) => [p] + AltList(others)
  }

  function Braces(p: Pattern): nat {
    match p
    case End => 0
    case Ch(_, rest) => Braces(rest)
    case Brace(alts, rest) => 1 + BracesOfAlts(alts) + Braces(rest)
  }

  function BracesOfAlts(alts: Alts): nat {
    match alts
    case Last(p) => Braces(p)
    case More(p, others) => Braces(p) + BracesOfAlts(others)
  }

  predicate HasBrace(p: Pattern) {
    match p
    case End => false
    case Ch(_, rest) => HasBrace(rest)
    case Brace(_, _) => true
  }

  /** The text before the first brace, its alternatives, and what follows it. */
  function Before(p: Pattern): Text
    requires HasBrace(p)
  {
    if p.Brace? then [] else [p.c] + Before(p.rest)
  }

  function FirstAlts(p: Pattern): Alts
    requires HasBrace(p)
  {
    if p.Brace? then p.alts else FirstAlts(p.rest)
  }

  function After(p: Pattern): Pattern
    requires HasBrace(p)
  {
    if p.Brace? then p.rest else After(p.rest)
  }

  /** The pattern with its first brace replaced by q. */
  function Replaced(p: Pattern, q: Pattern): Pattern
    requires HasBrace(p)
  {
    if p.Brace? then Join(q, p.rest) else Ch(p.c, Replaced(p.rest, q))
  }

  lemma {:induction false} BracesOfJoin(p: Pattern, q: Pattern)
    ensures Braces(Join(p, q)) == Braces(p) + Braces(q)
  {
    match p
    case End =>
    case Ch(_, rest) => BracesOfJoin(rest, q);
    case Brace(_, rest) => BracesOfJoin(rest, q);
  }

  lemma {:induction false} BracesFall(p: Pattern, q: Pattern)
    requires HasBrace(p)
    ensures Braces(Replaced(p, q)) + 1 + BracesOfAlts(FirstAlts(p)) == Braces(p) + Braces(q)
  {
    if p.Brace? {
      BracesOfJoin(q, p.rest);
    } else {
      BracesFall(p.rest, q);
    }
  }

  lemma {:induction false} AltsAreSmaller(alts: Alts, q: Pattern)
    requires q in AltList(alts)
    ensures Braces(q) <= BracesOfAlts(alts)
  {
    if alts.More? && q != alts.p {
      AltsAreSmaller(alts.others, q);
    }
  }

  ghost predicate Choices(p: Pattern, qs: seq<Pattern>) {
    HasBrace(p) && forall q :: q in qs ==> Braces(Replaced(p, q)) < Braces(p)
  }

  lemma FirstChoices(p: Pattern)
    requires HasBrace(p)
    ensures Choices(p, AltList(FirstAlts(p)))
  {
    forall q | q in AltList(FirstAlts(p)) ensures Braces(Replaced(p, q)) < Braces(p) {
      AltsAreSmaller(FirstAlts(p), q);
      BracesFall(p, q);
    }
  }

  /** The texts handed to glob0: a pattern that is exactly {} is kept. */
  ghost function Handed(p: Pattern): seq<Text>
    decreases Braces(p)
  {
    if p == EMPTY_BRACES || !HasBrace(p) then [Render(p)]
    else
      FirstChoices(p);
      HandedAll(p, AltList(FirstAlts(p)))
  }

  ghost function HandedAll(p: Pattern, qs: seq<Pattern>): seq<Text>
    requires Choices(p, qs)
    decreases Braces(p), |qs|
  {
    if qs == [] then [] else Handed(Replaced(p, qs[0])) + HandedAll(p, qs[1..])
  }

  // ----- when this is the expansion of the C shell -----

  /** Some expansion is the empty text. */
  predicate Vanishes(p: Pattern) {
    match p
    case End => true
    case Ch(_, _) => false
    case Brace(alts, rest) => SomeVanishes(alts) && Vanishes(rest)
  }

  predicate SomeVanishes(alts: Alts) {
    match alts
    case Last(p) => Vanishes(p)
    case More(p, others) => Vanishes(p) || SomeVanishes(others)
  }

  /** A brace without contents can be left over as the whole pattern. */
  predicate LeavesBraces(p: Pattern) {
    match p
    case End => false
    case Ch(_, _) => false
    case Brace(alts, rest) =>
      || (rest == End && (alts == Last(End) || SomeLeavesBraces(alts)))
      || (SomeVanishes(alts) && LeavesBraces(rest))
  }

  predicate SomeLeavesBraces(alts: Alts) {
    match alts
    case Last(p) => LeavesBraces(p)
    case More(p, others) => LeavesBraces(p) || SomeLeavesBraces(others)
  }

  lemma {:induction false} JoinLeavesBraces(p: Pattern, q: Pattern)
    ensures LeavesBraces(Join(p, q)) <==> ((q == End && LeavesBraces(p)) || (Vanishes(p) && LeavesBraces(q)))
  {
    match p
    case End =>
    case Ch(_, _) =>
    case Brace(_, rest) =>
      JoinLeavesBraces(rest, q);
      assert Join(rest, q) == End <==> (rest == End && q == End);
  }

  /** Some choice for the first brace of p leaves a pattern that leaves braces. */
  ghost predicate SomeChoiceLeavesBraces(p: Pattern, qs: seq<Pattern>)
    requires HasBrace(p)
  {
    exists q :: q in qs && LeavesBraces(Replaced(p, q))
  }

  lemma {:induction false} ChoicesLeaveBraces(p: Pattern, alts: Alts)
    requires p.Brace?
    ensures SomeChoiceLeavesBraces(p, AltList(alts)) <==>
            ((p.rest == End && SomeLeavesBraces(alts)) || (SomeVanishes(alts) && LeavesBraces(p.rest)))
  {
    var q, list := alts.p, AltList(alts);
    JoinLeavesBraces(q, p.rest);
    assert list[0] == q && q in list;
    if alts.More? {
      ChoicesLeaveBraces(p, alts.others);
      assert forall r :: r in list <==> r == q || r in AltList(alts.others);
    }
  }

  lemma LeavesBracesByChoice(p: Pattern)
    requires HasBrace(p)
    ensures LeavesBraces(p) <==> (p == EMPTY_BRACES || SomeChoiceLeavesBraces(p, AltList(FirstAlts(p))))
  {
    if p.Brace? {
      ChoicesLeaveBraces(p, p.alts);
    }
  }

  // ----- no expansion holds a brace -----

  ghost predicate Plain(ts: seq<Text>) {
    forall t :: t in ts ==> LBRACE !in t
  }

  lemma PrefixedIsPlain(t: Text, b: seq<Text>)
    requires LBRACE !in t && Plain(b)
    ensures Plain(Prefixed(t, b))
  {
    var r := Prefixed(t, b);
    forall x | x in r ensures LBRACE !in x {
      var i :| 0 <= i < |r| && r[i] == x;
      assert x == t + b[i] && b[i] in b;
    }
  }

  lemma {:induction false} ProductIsPlain(a: seq<Text>, b: seq<Text>)
    requires Plain(a) && Plain(b)
    ensures Plain(Product(a, b))
  {
    if a != [] {
      assert a[0] in a && forall x :: x in a[1..] ==> x in a;
      PrefixedIsPlain(a[0], b);
      ProductIsPlain(a[1..], b);
    }
  }

  lemma {:induction false} ExpansionsArePlain(p: Pattern, inner: bool)
    requires Proper(p, inner)
    ensures Plain(Expansions(p))
  {
    match p
    case End =>
    case Ch(c, rest) =>
      ExpansionsArePlain(rest, inner);
      PrefixedIsPlain([c], Expansions(rest));
    case Brace(alts, rest) =>
      ExpansionsOfAltsArePlain(alts);
      ExpansionsArePlain(rest, inner);
      ProductIsPlain(ExpansionsOfAlts(alts), Expansions(rest));
  }

  lemma {:induction false} ExpansionsOfAltsArePlain(alts: Alts)
    requires ProperAlts(alts)
    ensures Plain(ExpansionsOfAlts(alts))
  {
    ExpansionsArePlain(alts.p, true);
    if alts.More? {
      ExpansionsOfAltsArePlain(alts.others);
    }
  }

  // ----- the two expansions compared -----

  lemma {:induction false} NoBraceNoChoice(p: Pattern)
    requires !HasBrace(p)
    ensures Expansions(p) == [Render(p)] && !LeavesBraces(p)
  {
    if p.Ch? {
      NoBraceNoChoice(p.rest);
    }
  }

  lemma PrefixedTwice(t: Text, u: Text, b: seq<Text>)
    ensures Prefixed(t, Prefixed(u, b)) == Prefixed(t + u, b)
  {
    var x, y := Prefixed(t, Prefixed(u, b)), Prefixed(t + u, b);
    forall i | 0 <= i < |b| ensures x[i] == y[i] {
      assert t + (u + b[i]) == t + u + b[i];
    }
  }

  /** The expansions around the first brace of p. */
  function Around(p: Pattern, ts: seq<Text>): seq<Text>
    requires HasBrace(p)
  {
    Prefixed(Before(p), Product(ts, Expansions(After(p))))
  }

  lemma {:induction false} ExpansionsAroundFirst(p: Pattern, q: Pattern)
    requires HasBrace(p)
    ensures Expansions(p) == Around(p, ExpansionsOfAlts(FirstAlts(p)))
    ensures Expansions(Replaced(p, q)) == Around(p, Expansions(q))
  {
    var after := Expansions(After(p));
    var b, c := Product(ExpansionsOfAlts(FirstAlts(p)), after), Product(Expansions(q), after);
    if p.Brace? {
      ProductOfOne([], b);
      ProductOfOne([], c);
      ExpansionsOfJoin(q, p.rest);
    } else {
      ExpansionsAroundFirst(p.rest, q);
      PrefixedTwice([p.c], Before(p.rest), b);
      PrefixedTwice([p.c], Before(p.rest), c);
    }
  }

  ghost function ExpansionsOfChoices(p: Pattern, qs: seq<Pattern>): seq<Text>
    requires HasBrace(p)
  {
    if qs == [] then [] else Expansions(Replaced(p, qs[0])) + ExpansionsOfChoices(p, qs[1..])
  }

  lemma AroundSum(p: Pattern, a: seq<Text>, b: seq<Text>)
    requires HasBrace(p)
    ensures Around(p, a + b) == Around(p, a) + Around(p, b)
  {
    var after := Expansions(After(p));
    ProductOfSum(a, b, after);
    var x, y := Product(a, after), Product(b, after);
    assert Prefixed(Before(p), x + y) == Prefixed(Before(p), x) + Prefixed(Before(p), y);
  }

  lemma {:induction false} ExpansionsChoiceByChoice(p: Pattern, alts: Alts)
    requires HasBrace(p)
    ensures ExpansionsOfChoices(p, AltList(alts)) == Around(p, ExpansionsOfAlts(alts))
  {
    var list := AltList(alts);
    ExpansionsAroundFirst(p, alts.p);
    if alts.More? {
      ExpansionsChoiceByChoice(p, alts.others);
      assert list[1..] == AltList(alts.others);
      AroundSum(p, Expansions(alts.p), ExpansionsOfAlts(alts.others));
    } else {
      assert list[1..] == [];
    }
  }

  /** Without a left-over {} the code hands on the expansion of the C shell, in its order. */
  lemma {:induction false} HandedIsExpansions(p: Pattern)
    requires !LeavesBraces(p)
    ensures Handed(p) == Expansions(p)
    decreases Braces(p)
  {
    if HasBrace(p) {
      var list := AltList(FirstAlts(p));
      FirstChoices(p);
      LeavesBracesByChoice(p);
      assert !SomeChoiceLeavesBraces(p, list);
      AllHandedIsExpansions(p, list);
      ExpansionsChoiceByChoice(p, FirstAlts(p));
      ExpansionsAroundFirst(p, End);
    } else {
      NoBraceNoChoice(p);
    }
  }

  lemma {:induction false} AllHandedIsExpansions(p: Pattern, qs: seq<Pattern>)
    requires Choices(p, qs) && !SomeChoiceLeavesBraces(p, qs)
    ensures HandedAll(p, qs) == ExpansionsOfChoices(p, qs)
    decreases Braces(p), |qs|
  {
    if qs != [] {
      assert qs[0] in qs && forall q :: q in qs[1..] ==> q in qs;
      HandedIsExpansions(Replaced(p, qs[0]));
      AllHandedIsExpansions(p, qs[1..]);
    }
  }

  /** With one, the text {} itself is handed on, which is no expansion. */
  lemma {:induction false} BracesAreHanded(p: Pattern)
    requires LeavesBraces(p)
    ensures [LBRACE, RBRACE] in Handed(p)
    decreases Braces(p)
  {
    if p != EMPTY_BRACES {
      if !HasBrace(p) {
        NoBraceNoChoice(p);
      }
      var list := AltList(FirstAlts(p));
      FirstChoices(p);
      LeavesBracesByChoice(p);
      SomeBracesAreHanded(p, list);
    } else {
      assert Render(EMPTY_BRACES) == [LBRACE] + [] + [RBRACE] + [] == [LBRACE, RBRACE];
    }
  }

  lemma {:induction false} SomeBracesAreHanded(p: Pattern, qs: seq<Pattern>)
    requires Choices(p, qs) && SomeChoiceLeavesBraces(p, qs)
    ensures [LBRACE, RBRACE] in HandedAll(p, qs)
    decreases Braces(p), |qs|
  {
    assert qs[0] in qs && forall q :: q in qs[1..] ==> q in qs;
    if LeavesBraces(Replaced(p, qs[0])) {
      BracesAreHanded(Replaced(p, qs[0]));
    } else {
      assert SomeChoiceLeavesBraces(p, qs[1..]) by {
        var q :| q in qs && LeavesBraces(Replaced(p, q));
        assert q in qs[1..];
      }
      SomeBracesAreHanded(p, qs[1..]);
    }
  }

  /** The C shell leaves the word {} alone and expands every other word. */
  function Csh(p: Pattern): seq<Text> {
    if p == EMPTY_BRACES then [Render(p)] else Expansions(p)
  }

  /** The code agrees with the C shell exactly when no brace without contents is left over on the way. */
  lemma HandedIsCshExactly(p: Pattern)
    requires Proper(p, false)
    ensures Handed(p) == Csh(p) <==> (p == EMPTY_BRACES || !LeavesBraces(p))
  {
    if p == EMPTY_BRACES {
    } else if LeavesBraces(p) {
      BracesAreHanded(p);
      ExpansionsArePlain(p, false);
      assert LBRACE in [LBRACE, RBRACE];
    } else {
      HandedIsExpansions(p);
    }
  }

  /** The pattern {{}}: the C shell expands it to the empty text. */
  lemma NestedEmptyBraces()
    ensures Handed(Brace(Last(EMPTY_BRACES), End)) == [[LBRACE, RBRACE]]
    ensures Csh(Brace(Last(EMPTY_BRACES), End)) == [[]]
  {
    var p := Brace(Last(EMPTY_BRACES), End);
    FirstChoices(p);
    var list := AltList(FirstAlts(p));
    assert list == [EMPTY_BRACES] && Replaced(p, EMPTY_BRACES) == EMPTY_BRACES;
    assert list[1..] == [] && HandedAll(p, list[1..]) == [];
    assert Render(EMPTY_BRACES) == [LBRACE] + [] + [RBRACE] + [] == [LBRACE, RBRACE];
    assert Handed(EMPTY_BRACES) == [Render(EMPTY_BRACES)];
    ProductOfOne([], [[]]);
    assert Expansions(EMPTY_BRACES) == [[]];
  }

  // ----- scanning the text -----

  /** The text u stands in t from position k on. */
  ghost predicate At(t: Text, k: nat, u: Text) {
    k + |u| <= |t| && t[k..k + |u|] == u
  }

  lemma AtSplit(t: Text, k: nat, u: Text, v: Text)
    requires At(t, k, u + v)
    ensures At(t, k, u) && At(t, k + |u|, v)
  {
    var w := t[k..k + |u| + |v|];
    assert w == u + v;
    assert w[..|u|] == u && w[|u|..] == v;
    assert t[k..k + |u|] == w[..|u|];
    assert t[k + |u|..k + |u| + |v|] == w[|u|..];
  }

  lemma AtFirst(t: Text, k: nat, c: int, u: Text)
    requires At(t, k, [c] + u)
    ensures k < |t| && t[k] == c && At(t, k + 1, u)
  {
    AtSplit(t, k, [c], u);
    assert t[k..k + 1][0] == c;
  }

  lemma BraceText(a: Text, r: Text)
    ensures [LBRACE] + a + [RBRACE] + r == [LBRACE] + (a + ([RBRACE] + r))
    ensures |[LBRACE] + a + [RBRACE] + r| == 2 + |a| + |r|
  {
  }

  lemma AtEnd(t: Text, k: nat, u: Text)
    requires At(t, k, u) && |t| == k + |u|
    ensures t[k..] == u
  {
  }

  /** A brace in place: its opening, its alternatives, its closing, and what follows. */
  lemma AtBrace(t: Text, k: nat, alts: Alts, rest: Pattern)
    requires At(t, k, Render(Brace(alts, rest)))
    ensures k < |t| && t[k] == LBRACE && At(t, k + 1, RenderAlts(alts))
    ensures var e := k + 1 + |RenderAlts(alts)|; e < |t| && t[e] == RBRACE && At(t, e + 1, Render(rest))
  {
    var a, r := RenderAlts(alts), Render(rest);
    BraceText(a, r);
    assert At(t, k, [LBRACE] + (a + ([RBRACE] + r)));
    hide At, Render, RenderAlts;
    AtFirst(t, k, LBRACE, a + ([RBRACE] + r));
    AtSplit(t, k + 1, a, [RBRACE] + r);
    AtFirst(t, k + 1 + |a|, RBRACE, r);
  }

  /** One alternative in place, the comma behind it, and the others. */
  lemma AtMore(t: Text, k: nat, p: Pattern, others: Alts)
    requires At(t, k, RenderAlts(More(p, others)))
    ensures At(t, k, Render(p))
    ensures var e := k + |Render(p)|; e < |t| && t[e] == COMMA && At(t, e + 1, RenderAlts(others))
  {
    var a, r := Render(p), RenderAlts(others);
    assert RenderAlts(More(p, others)) == a + [COMMA] + r == a + ([COMMA] + r);
    hide At, Render, RenderAlts;
    AtSplit(t, k, a, [COMMA] + r);
    AtFirst(t, k + |a|, COMMA, r);
  }

  /** The nesting depth after a character. */
  function Deeper(c: int, i: nat): nat {
    if c == LBRACE then i + 1 else if c == RBRACE && i > 0 then i - 1 else i
  }

  /** The first closing brace at depth zero, or the end of the text. */
  function Close(t: Text, k: nat, i: nat): nat
    requires k <= |t|
    decreases |t| - k
  {
    if k == |t| || (t[k] == RBRACE && i == 0) then k else Close(t, k + 1, Deeper(t[k], i))
  }

  lemma CloseStep(t: Text, k: nat, i: nat)
    requires k < |t| && !(t[k] == RBRACE && i == 0)
    ensures Close(t, k, i) == Close(t, k + 1, Deeper(t[k], i))
  {
  }

  lemma {:induction false} CloseSkips(t: Text, k: nat, p: Pattern, inner: bool, i: nat)
    requires At(t, k, Render(p)) && Proper(p, inner)
    ensures Close(t, k, i) == Close(t, k + |Render(p)|, i)
    decreases p
  {
    hide Close, At;
    match p
    case End =>
    case Ch(c, rest) =>
      AtFirst(t, k, c, Render(rest));
      CloseStep(t, k, i);
      CloseSkips(t, k + 1, rest, inner, i);
    case Brace(alts, rest) =>
      AtBrace(t, k, alts, rest);
      CloseStep(t, k, i);
      CloseSkipsAlts(t, k + 1, alts, i + 1);
      CloseStep(t, k + 1 + |RenderAlts(alts)|, i + 1);
      CloseSkips(t, k + 2 + |RenderAlts(alts)|, rest, inner, i);
  }

  lemma {:induction false} CloseSkipsAlts(t: Text, k: nat, alts: Alts, i: nat)
    requires At(t, k, RenderAlts(alts)) && ProperAlts(alts)
    ensures Close(t, k, i) == Close(t, k + |RenderAlts(alts)|, i)
    decreases alts
  {
    hide Close, At;
    match alts
    case Last(p) => CloseSkips(t, k, p, true, i);
    case More(p, others) =>
      AtMore(t, k, p, others);
      CloseSkips(t, k, p, true, i);
      CloseStep(t, k + |Render(p)|, i);
      CloseSkipsAlts(t, k + |Render(p)| + 1, others, i);
  }

  /** Whether position m ends an alternative at depth i. */
  predicate Ends(c: int, i: nat) {
    i == 0 && (c == COMMA || c == RBRACE)
  }

  /** The alternatives still to be found up to the closing brace e, the current one starting at l. */
  function Segments(t: Text, l: nat, m: nat, i: nat, e: nat): seq<Text>
    requires l <= m <= e + 1 <= |t|
    decreases e + 1 - m
  {
    if m > e then []
    else if Ends(t[m], i) then [t[l..m]] + Segments(t, m + 1, m + 1, i, e)
    else Segments(t, l, m + 1, Deeper(t[m], i), e)
  }

  lemma SegmentsStep(t: Text, l: nat, m: nat, i: nat, e: nat)
    requires l <= m <= e < |t|
    ensures Segments(t, l, m, i, e) ==
            if Ends(t[m], i) then [t[l..m]] + Segments(t, m + 1, m + 1, i, e)
            else Segments(t, l, m + 1, Deeper(t[m], i), e)
  {
  }

  lemma {:induction false} SegmentsSkip(t: Text, l: nat, m: nat, p: Pattern, inner: bool, i: nat, e: nat)
    requires At(t, m, Render(p)) && Proper(p, inner) && (i == 0 ==> inner)
    requires l <= m && m + |Render(p)| <= e < |t|
    ensures Segments(t, l, m, i, e) == Segments(t, l, m + |Render(p)|, i, e)
    decreases p
  {
    hide Segments, At;
    match p
    case End =>
    case Ch(c, rest) =>
      AtFirst(t, m, c, Render(rest));
      SegmentsStep(t, l, m, i, e);
      SegmentsSkip(t, l, m + 1, rest, inner, i, e);
    case Brace(alts, rest) =>
      AtBrace(t, m, alts, rest);
      SegmentsStep(t, l, m, i, e);
      SegmentsSkipAlts(t, l, m + 1, alts, i + 1, e);
      SegmentsStep(t, l, m + 1 + |RenderAlts(alts)|, i + 1, e);
      SegmentsSkip(t, l, m + 2 + |RenderAlts(alts)|, rest, inner, i, e);
  }

  lemma {:induction false} SegmentsSkipAlts(t: Text, l: nat, m: nat, alts: Alts, i: nat, e: nat)
    requires At(t, m, RenderAlts(alts)) && ProperAlts(alts) && i > 0
    requires l <= m && m + |RenderAlts(alts)| <= e < |t|
    ensures Segments(t, l, m, i, e) == Segments(t, l, m + |RenderAlts(alts)|, i, e)
    decreases alts
  {
    hide Segments, At;
    match alts
    case Last(p) => SegmentsSkip(t, l, m, p, true, i, e);
    case More(p, others) =>
      AtMore(t, m, p, others);
      SegmentsSkip(t, l, m, p, true, i, e);
      SegmentsStep(t, l, m + |Render(p)|, i, e);
      SegmentsSkipAlts(t, l, m + |Render(p)| + 1, others, i, e);
  }

  function Renders(qs: seq<Pattern>): (r: seq<Text>)
    ensures |r| == |qs| && forall i :: 0 <= i < |qs| ==> r[i] == Render(qs[i])
  {
    seq(|qs|, i requires 0 <= i < |qs| => Render(qs[i]))
  }

  lemma SegmentFound(t: Text, l: nat, m: nat, e: nat, p: Pattern, qs: seq<Pattern>)
    requires l <= m <= e < |t| && m == l + |Render(p)| && At(t, l, Render(p)) && Ends(t[m], 0)
    requires Segments(t, m + 1, m + 1, 0, e) == Renders(qs)
    ensures Segments(t, l, m, 0, e) == Renders([p] + qs)
  {
    SegmentsStep(t, l, m, 0, e);
    hide Segments;
    assert Renders([p] + qs) == [Render(p)] + Renders(qs);
  }

  /** Splitting at the commas of depth zero finds the alternatives in order. */
  lemma {:induction false} SegmentsAreAlts(t: Text, l: nat, alts: Alts, e: nat)
    requires At(t, l, RenderAlts(alts)) && ProperAlts(alts)
    requires e == l + |RenderAlts(alts)| < |t| && t[e] == RBRACE
    ensures Segments(t, l, l, 0, e) == Renders(AltList(alts))
    decreases alts
  {
    assert Segments(t, e + 1, e + 1, 0, e) == [];
    hide Segments, Renders, At;
    var p := alts.p;
    var m := l + |Render(p)|;
    match alts
    case Last(_) =>
      SegmentsSkip(t, l, l, p, true, 0, e);
      assert Renders([]) == [];
      assert [p] + [] == [p];
      SegmentFound(t, l, m, e, p, []);
    case More(_, others) =>
      AtMore(t, l, p, others);
      SegmentsSkip(t, l, l, p, true, 0, e);
      SegmentsAreAlts(t, m + 1, others, e);
      SegmentFound(t, l, m, e, p, AltList(others));
  }

  // ----- the first brace of a text -----

  lemma {:induction false} TextAroundFirst(p: Pattern)
    requires HasBrace(p)
    ensures Render(p) == Before(p) + Render(Brace(FirstAlts(p), After(p)))
  {
    if p.Brace? {
      assert [] + Render(p) == Render(p);
    } else {
      TextAroundFirst(p.rest);
      Associates([p.c], Before(p.rest), Render(Brace(FirstAlts(p), After(p))));
    }
  }

  lemma {:induction false} TextOfReplaced(p: Pattern, q: Pattern)
    requires HasBrace(p)
    ensures Render(Replaced(p, q)) == Before(p) + (Render(q) + Render(After(p)))
  {
    if p.Brace? {
      RenderJoin(q, p.rest);
    } else {
      TextOfReplaced(p.rest, q);
      Associates([p.c], Before(p.rest), Render(q) + Render(After(p.rest)));
    }
  }

  lemma {:induction false} NoBraceBefore(p: Pattern, inner: bool)
    requires Proper(p, inner)
    ensures HasBrace(p) ==> LBRACE !in Before(p)
    ensures !HasBrace(p) ==> LBRACE !in Render(p)
  {
    if p.Ch? {
      NoBraceBefore(p.rest, inner);
    }
  }

  lemma {:induction false} ProperJoin(p: Pattern, q: Pattern)
    requires Proper(p, true) && Proper(q, false)
    ensures Proper(Join(p, q), false)
  {
    if !p.End? {
      ProperJoin(p.rest, q);
    }
  }

  lemma {:induction false} ProperReplaced(p: Pattern, q: Pattern)
    requires Proper(p, false) && HasBrace(p) && Proper(q, true)
    ensures Proper(Replaced(p, q), false)
  {
    if p.Brace? {
      ProperJoin(q, p.rest);
    } else {
      ProperReplaced(p.rest, q);
    }
  }

  ghost predicate AllProper(qs: seq<Pattern>) {
    forall q :: q in qs ==> Proper(q, true)
  }

  lemma {:induction false} ProperFirst(p: Pattern)
    requires Proper(p, false) && HasBrace(p)
    ensures ProperAlts(FirstAlts(p))
    ensures AllProper(AltList(FirstAlts(p)))
  {
    if p.Brace? {
      ProperList(p.alts);
    } else {
      ProperFirst(p.rest);
    }
  }

  lemma {:induction false} ProperList(alts: Alts)
    requires ProperAlts(alts)
    ensures AllProper(AltList(alts))
  {
    if alts.More? {
      ProperList(alts.others);
    }
  }

  lemma OnlyEndIsEmpty(p: Pattern)
    ensures Render(p) == [] <==> p == End
  {
    if p.Brace? {
      assert [LBRACE] + RenderAlts(p.alts) + [RBRACE] + Render(p.rest) != [];
    }
  }

  /** Only the pattern {} is written {}. */
  lemma OnlyEmptyBraces(p: Pattern)
    requires Proper(p, false) && HasBrace(p)
    ensures Render(p) == [LBRACE, RBRACE] <==> p == EMPTY_BRACES
  {
    if p.Ch? {
      var r := [p.c] + Render(p.rest);
      assert r[0] != LBRACE && Render(p) == r;
    } else {
      assert Render(EMPTY_BRACES) == [LBRACE] + [] + [RBRACE] + [] == [LBRACE, RBRACE];
      var a, r := RenderAlts(p.alts), Render(p.rest);
      assert |Render(p)| == 2 + |a| + |r|;
      OnlyEndIsEmpty(p.rest);
      OnlyEndIsEmpty(p.alts.p);
      assert a == [] <==> p.alts == Last(End);
    }
  }

  // ----- the code -----

  /** The first place of c in the text, or its end. */
  method Strchr(text: Text, c: int) returns (k: nat)
    ensures k <= |text| && c !in text[..k] && (k < |text| ==> text[k] == c)
  {
    k := 0;
    while k < |text| && text[k] != c
      invariant k <= |text| && c !in text[..k]
    {
      k := k + 1;
    }
  }

  /** Finds the closing brace that matches the one before k. */
  method FindBalanced(text: Text, k: nat) returns (e: nat, i: nat)
    requires k <= |text|
    ensures e == Close(text, k, 0)
    ensures e < |text| ==> i == 0
  {
    e, i := k, 0;
    while e < |text|
      invariant k <= e <= |text|
      invariant Close(text, e, i) == Close(text, k, 0)
    {
      if text[e] == LBRACE {
        i := i + 1;
      } else if text[e] == RBRACE {
        if i == 0 {
          break;
        }
        i := i - 1;
      }
      e := e + 1;
    }
  }

  /** Appends text[from..to] to the buffer, whose first at places are in use. */
  method Append(buf: array<int>, at: nat, text: Text, from: nat, to: nat) returns (next: nat)
    requires from <= to <= |text| && at + to - from <= buf.Length
    modifies buf
    ensures next == at + to - from
    ensures buf[..next] == old(buf[..at]) + text[from..to]
  {
    var k := from;
    next := at;
    while k < to
      invariant from <= k <= to && next == at + k - from
      invariant buf[..next] == old(buf[..at]) + text[from..k]
    {
      buf[next] := text[k];
      next, k := next + 1, k + 1;
    }
  }

  lemma SuffixAt(t: Text, a: Text, b: Text)
    requires t == a + b
    ensures t[..|a|] == a && t[|a|..] == b && At(t, |a|, b)
  {
  }

  /** The scans from a brace that stands at k and reaches to the end. */
  lemma BraceInText(text: Text, k: nat, alts: Alts, rest: Pattern)
    requires ProperAlts(alts) && At(text, k, Render(Brace(alts, rest)))
    requires |text| == k + |Render(Brace(alts, rest))|
    ensures text[k] == LBRACE
    ensures var e := Close(text, k + 1, 0);
      && k < e < |text| && text[e + 1..] == Render(rest)
      && Segments(text, k + 1, k + 1, 0, e) == Renders(AltList(alts))
  {
    hide Segments, AltList, Renders, ProperAlts, At, RenderAlts;
    BraceText(RenderAlts(alts), Render(rest));
    assert |Render(Brace(alts, rest))| == 2 + |RenderAlts(alts)| + |Render(rest)|;
    hide Render;
    AtBrace(text, k, alts, rest);
    var e := k + 1 + |RenderAlts(alts)|;
    CloseSkipsAlts(text, k + 1, alts, 0);
    SegmentsAreAlts(text, k + 1, alts, e);
    AtEnd(text, e + 1, Render(rest));
  }

  /** Where the scans of globexp2 lead in the text of p. */
  lemma FirstBraceInText(p: Pattern, text: Text)
    requires Proper(p, false) && HasBrace(p) && text == Render(p)
    ensures var k := |Before(p)|;
      && k < |text| && text[k] == LBRACE && LBRACE !in text[..k] && text[..k] == Before(p)
      && var e := Close(text, k + 1, 0);
      && k < e < |text| && text[e + 1..] == Render(After(p))
      && Segments(text, k + 1, k + 1, 0, e) == Renders(AltList(FirstAlts(p)))
  {
    hide Segments, AltList, Renders, Proper, ProperAlts, Close, Before, After, FirstAlts, HasBrace, At;
    hide Render;
    TextAroundFirst(p);
    NoBraceBefore(p, false);
    ProperFirst(p);
    var b, alts, rest := Before(p), FirstAlts(p), After(p);
    SuffixAt(text, b, Render(Brace(alts, rest)));
    BraceInText(text, |b|, alts, rest);
  }

  /** Where an alternative ends, the text since the last end is the next alternative. */
  lemma NextAlternative(t: Text, l: nat, m: nat, i: nat, e: nat, qs: seq<Pattern>)
    requires l <= m <= e < |t| && Ends(t[m], i) && Segments(t, l, m, i, e) == Renders(qs)
    ensures qs != [] && t[l..m] == Render(qs[0])
    ensures Segments(t, m + 1, m + 1, i, e) == Renders(qs[1..])
  {
    var first, others := [t[l..m]], Segments(t, m + 1, m + 1, i, e);
    assert Renders(qs) == first + others && qs != [];
    assert (first + others)[1..] == others;
    assert Renders(qs)[1..] == Renders(qs[1..]);
  }

  lemma NextHanded(p: Pattern, qs: seq<Pattern>, handed: seq<Text>)
    requires Choices(p, qs) && qs != []
    ensures handed + HandedAll(p, qs) == handed + Handed(Replaced(p, qs[0])) + HandedAll(p, qs[1..])
    ensures Braces(Replaced(p, qs[0])) < Braces(p) && Choices(p, qs[1..])
  {
    assert qs[0] in qs && forall q :: q in qs[1..] ==> q in qs;
    var u, v := Handed(Replaced(p, qs[0])), HandedAll(p, qs[1..]);
    assert handed + (u + v) == handed + u + v;
  }

  lemma LastHanded(t: Text, l: nat, m: nat, i: nat, e: nat, p: Pattern, qs: seq<Pattern>, handed: seq<Text>)
    requires l <= m == e + 1 <= |t| && Segments(t, l, m, i, e) == Renders(qs) && Choices(p, qs)
    ensures handed + HandedAll(p, qs) == handed
  {
  }

  /** The texts handed to glob0 for a balanced pattern, in order. */
  method Globexp1(pattern: Text, ghost p: Pattern) returns (handed: seq<Text>)
    requires pattern == Render(p) && Proper(p, false) && |pattern| < MAXPATHLEN
    ensures handed == Handed(p)
    decreases Braces(p)
  {
    if pattern == [LBRACE, RBRACE] {
      NoBraceBefore(p, false);
      assert LBRACE in pattern;
      OnlyEmptyBraces(p);
      return [pattern];
    }
    var ptr := Strchr(pattern, LBRACE);
    NoBraceBefore(p, false);
    if ptr < |pattern| {
      assert LBRACE in pattern;
      OnlyEmptyBraces(p);
      FirstBraceInText(p, pattern);
      handed := Globexp2(ptr, pattern, p);
    } else {
      assert pattern[..ptr] == pattern;
      assert !HasBrace(p) by {
        if HasBrace(p) {
          FirstBraceInText(p, pattern);
        }
      }
      handed := [pattern];
    }
  }

  /** Puts one alternative in the place of the brace and expands the result. */
  method ExpandOne(patbuf: array<int>, ls: nat, pattern: Text, pl: nat, pm: nat, pe: nat,
                   ghost p: Pattern, ghost q: Pattern)
    returns (handed: seq<Text>)
    requires HasBrace(p) && Proper(p, false) && Proper(q, true) && Braces(Replaced(p, q)) < Braces(p)
    requires ls < pl <= pm <= pe < |pattern| < patbuf.Length == MAXPATHLEN
    requires patbuf[..ls] == Before(p) && pattern[pl..pm] == Render(q) && pattern[pe + 1..] == Render(After(p))
    modifies patbuf
    ensures patbuf[..ls] == Before(p) && handed == Handed(Replaced(p, q))
    decreases Braces(p), 0
  {
    hide Handed, Replaced, Before, After, Render, Proper, HasBrace, Braces;
    TextOfReplaced(p, q);
    Associates(Before(p), Render(q), Render(After(p)));
    ProperReplaced(p, q);
    var lm := Append(patbuf, ls, pattern, pl, pm);
    assert patbuf[..ls] == Before(p) by {
      assert patbuf[..lm] == Before(p) + Render(q);
      assert patbuf[..ls] == patbuf[..lm][..ls];
    }
    lm := Append(patbuf, lm, pattern, pe + 1, |pattern|);
    assert patbuf[..lm] == Before(p) + Render(q) + Render(After(p));
    assert patbuf[..ls] == patbuf[..lm][..ls];
    handed := Globexp1(patbuf[..lm], Replaced(p, q));
  }

  /** Every alternative up to the closing brace at pe in turn takes the place of the brace. */
  method ExpandAll(patbuf: array<int>, ls: nat, pattern: Text, pe: nat, ghost p: Pattern, ghost all: seq<Pattern>)
    returns (handed: seq<Text>)
    requires HasBrace(p) && Proper(p, false) && Choices(p, all) && AllProper(all)
    requires ls < pe < |pattern| < patbuf.Length == MAXPATHLEN
    requires patbuf[..ls] == Before(p) && pattern[pe + 1..] == Render(After(p))
    requires Segments(pattern, ls + 1, ls + 1, 0, pe) == Renders(all)
    modifies patbuf
    ensures handed == HandedAll(p, all)
    decreases Braces(p), 1
  {
    hide Handed, HandedAll, Replaced, Before, After, Render, Proper, HasBrace, Braces, Choices, Segments, Renders;
    var pl, pm, i := ls + 1, ls + 1, 0;
    ghost var qs := all;
    handed := [];
    while pm <= pe
      invariant ls < pl <= pm <= pe + 1 && 0 <= i
      invariant Choices(p, qs) && AllProper(qs)
      invariant Segments(pattern, pl, pm, i, pe) == Renders(qs)
      invariant patbuf[..ls] == Before(p)
      invariant handed + HandedAll(p, qs) == HandedAll(p, all)
    {
      SegmentsStep(pattern, pl, pm, i, pe);
      if pattern[pm] == LBRACE {
        i := i + 1;
      } else if pattern[pm] == RBRACE && i > 0 {
        i := i - 1;
      } else if pattern[pm] == RBRACE || (pattern[pm] == COMMA && i == 0) {
        NextAlternative(pattern, pl, pm, i, pe, qs);
        NextHanded(p, qs, handed);
        var more := ExpandOne(patbuf, ls, pattern, pl, pm, pe, p, qs[0]);
        handed := handed + more;
        pl := pm + 1;
        qs := qs[1..];
      }
      pm := pm + 1;
    }
    LastHanded(pattern, pl, pm, i, pe, p, qs, handed);
  }

  /** Expands the first brace of the pattern, which stands at ptr. */
  method Globexp2(ptr: nat, pattern: Text, ghost p: Pattern) returns (handed: seq<Text>)
    requires pattern == Render(p) && Proper(p, false) && |pattern| < MAXPATHLEN
    requires HasBrace(p) && p != EMPTY_BRACES && ptr == |Before(p)|
    ensures handed == Handed(p)
    decreases Braces(p), 2
  {
    FirstBraceInText(p, pattern);
    FirstChoices(p);
    ProperFirst(p);
    ghost var all := AltList(FirstAlts(p));
    assert Handed(p) == HandedAll(p, all);
    hide Handed, HandedAll, Before, After, Render, Proper, HasBrace, Choices, AltList, Close, FirstAlts;
    hide Segments, Renders;
    var patbuf := new int[MAXPATHLEN];
    var ls := Append(patbuf, 0, pattern, 0, ptr);
    var pe, _ := FindBalanced(pattern, ptr + 1);
    handed := ExpandAll(patbuf, ls, pattern, pe, p, all);
  }
}
