/** Objective-C literals and selector names: the boxed dictionary and array
    literals `@{ ... }` and `@[ ... ]`, the `key : value` pair inside a
    dictionary literal, and the `method_identifier` that spells a selector
    (`:`, `name:`, `initWithFrame:style:`, `a::b:`). */
module ObjcExpressions {
  import opened GrammarExpr
  import opened RuleHelpers

  const Expression: Token := Named("expression")
  const Pair: Token := Named("dictionary_pair")
  const Identifier: Token := Named("identifier")
  const Colon: Token := Anon(":")

  // ---------------------------------------------------------------------
  // Boxed collection literals

  /** The part between the brackets of a boxed literal:
      `optional(seq(commaSep1(element), optional(',')))`. */
  function ElementsOf(element: string): Expr
  {
    Optional(Seq(CommaSep1(Sym(element)), Optional(Lit(","))))
  }

  /** `seq('@', open, <elements>, close)`. */
  function BoxedLiteral(open: string, close: string, element: string): Expr
  {
    SeqOf([Lit("@"), Lit(open), ElementsOf(element), Lit(close)])
  }

  const DictionaryLiteral: Expr := BoxedLiteral("{", "}", "dictionary_pair")
  const ArrayLiteral: Expr := BoxedLiteral("[", "]", "expression")
  const DictionaryPair: Expr := SeqOf([Sym("expression"), Lit(":"), Sym("expression")])

  /** Nothing, or elements separated by commas with at most one comma
      after the last element. */
  predicate ElementList(mid: seq<Token>, t: Token)
  {
    || mid == []
    || Alternates(mid, t, Comma)
    || (|mid| >= 1 && mid[|mid| - 1] == Comma && Alternates(mid[..|mid| - 1], t, Comma))
  }

  lemma ElementsChildren(k: string, mid: seq<Token>)
    ensures Matches(ElementsOf(k), mid) <==> ElementList(mid, Named(k))
  {
    ThenOptionalLit(CommaSep1(Sym(k)), ",", mid);
    CommaSep1OfSym(k, mid);
    if |mid| >= 1 {
      CommaSep1OfSym(k, mid[..|mid| - 1]);
    }
  }

  /** A boxed literal is `@`, the opening bracket, an element list and the
      closing bracket; an empty literal has no comma. */
  lemma BoxedLiteralChildren(open: string, close: string, k: string, w: seq<Token>)
    ensures Matches(BoxedLiteral(open, close, k), w) <==>
      && |w| >= 3 && w[0] == Anon("@") && w[1] == Anon(open) && w[|w| - 1] == Anon(close)
      && ElementList(w[2..|w| - 1], Named(k))
  {
    SeqOf4(Lit("@"), Lit(open), ElementsOf(k), Lit(close));
    LitThen("@", Seq(Lit(open), Seq(ElementsOf(k), Lit(close))), w);
    if |w| >= 1 {
      Bracketed(open, ElementsOf(k), close, w[1..]);
    }
    if |w| >= 3 {
      assert w[1..][1..|w[1..]| - 1] == w[2..|w| - 1];
      ElementsChildren(k, w[2..|w| - 1]);
    }
  }

  lemma DictionaryLiteralChildren(w: seq<Token>)
    ensures Matches(DictionaryLiteral, w) <==>
      && |w| >= 3 && w[0] == Anon("@") && w[1] == Anon("{") && w[|w| - 1] == Anon("}")
      && ElementList(w[2..|w| - 1], Pair)
  {
    BoxedLiteralChildren("{", "}", "dictionary_pair", w);
  }

  lemma ArrayLiteralChildren(w: seq<Token>)
    ensures Matches(ArrayLiteral, w) <==>
      && |w| >= 3 && w[0] == Anon("@") && w[1] == Anon("[") && w[|w| - 1] == Anon("]")
      && ElementList(w[2..|w| - 1], Expression)
  {
    BoxedLiteralChildren("[", "]", "expression", w);
  }

  lemma ElementListSamples()
    ensures ElementList([], Pair) && ElementList([Pair, Comma], Pair)
    ensures !ElementList([Comma], Pair) && !ElementList([Pair, Comma, Comma], Pair)
    ensures ElementList([Expression, Comma, Expression], Expression)
    ensures !ElementList([Expression, Expression], Expression)
  {
    assert [Pair, Comma][..1] == [Pair] && [Pair][1..] == [];
    assert [Pair, Comma, Comma][..2] == [Pair, Comma] && [Pair, Comma][1..] == [Comma];
    assert [Pair, Comma, Comma][1..] == [Comma, Comma];
    assert [Expression, Comma, Expression][1..] == [Comma, Expression];
    assert [Comma, Expression][2..] == [];
    assert Pairs([Comma, Expression], Comma, Expression);
    assert [Expression, Expression][1..] == [Expression];
  }

  /** `@{}` and `@{k: v,}` are dictionary literals; `@{,}` and
      `@{k: v,,}` are not. */
  lemma DictionaryLiteralExamples()
    ensures Matches(DictionaryLiteral, [Anon("@"), Anon("{"), Anon("}")])
    ensures Matches(DictionaryLiteral, [Anon("@"), Anon("{"), Pair, Comma, Anon("}")])
    ensures !Matches(DictionaryLiteral, [Anon("@"), Anon("{"), Comma, Anon("}")])
    ensures !Matches(DictionaryLiteral, [Anon("@"), Anon("{"), Pair, Comma, Comma, Anon("}")])
  {
    ElementListSamples();
    var empty := [Anon("@"), Anon("{"), Anon("}")];
    var trailing := [Anon("@"), Anon("{"), Pair, Comma, Anon("}")];
    var lone := [Anon("@"), Anon("{"), Comma, Anon("}")];
    var doubled := [Anon("@"), Anon("{"), Pair, Comma, Comma, Anon("}")];
    assert empty[2..|empty| - 1] == [];
    assert trailing[2..|trailing| - 1] == [Pair, Comma];
    assert lone[2..|lone| - 1] == [Comma];
    assert doubled[2..|doubled| - 1] == [Pair, Comma, Comma];
    DictionaryLiteralChildren(empty);
    DictionaryLiteralChildren(trailing);
    DictionaryLiteralChildren(lone);
    DictionaryLiteralChildren(doubled);
  }

  /** `@[e, e]` is an array literal; `@[e e]` is not. */
  lemma ArrayLiteralExamples()
    ensures Matches(ArrayLiteral, [Anon("@"), Anon("["), Expression, Comma, Expression, Anon("]")])
    ensures !Matches(ArrayLiteral, [Anon("@"), Anon("["), Expression, Expression, Anon("]")])
  {
    ElementListSamples();
    var two := [Anon("@"), Anon("["), Expression, Comma, Expression, Anon("]")];
    var juxtaposed := [Anon("@"), Anon("["), Expression, Expression, Anon("]")];
    assert two[2..|two| - 1] == [Expression, Comma, Expression];
    assert juxtaposed[2..|juxtaposed| - 1] == [Expression, Expression];
    ArrayLiteralChildren(two);
    ArrayLiteralChildren(juxtaposed);
  }

  /** A dictionary pair is exactly `expression : expression`. */
  lemma DictionaryPairChildren(w: seq<Token>)
    ensures Matches(DictionaryPair, w) <==> w == [Expression, Colon, Expression]
  {
    SeqOf3(Sym("expression"), Lit(":"), Sym("expression"));
    SymThen("expression", Seq(Lit(":"), Sym("expression")), w);
    if |w| >= 1 {
      LitThen(":", Sym("expression"), w[1..]);
    }
    if |w| >= 2 {
      assert w[1..][1..] == w[2..];
    }
    if w == [Expression, Colon, Expression] {
      assert w[1..] == [Colon, Expression] && w[2..] == [Expression];
    }
  }

  // ---------------------------------------------------------------------
  // Selector names

  const ColonRun: Expr := Repeat1(Lit(":"))

  /** `repeat(seq($.identifier, repeat1(':')))`. */
  const Keywords: Expr := Repeat(Seq(Sym("identifier"), ColonRun))

  /** `seq(optional($.identifier), repeat1(':'), <keywords>)`. */
  const MethodIdentifier: Expr := SeqOf([Optional(Sym("identifier")), ColonRun, Keywords])

  /** What may follow the first colon: `repeat(':')` then the keywords. */
  const AfterColon: Expr := Seq(Repeat(Lit(":")), Keywords)

  /** A run of colons, then any number of identifiers each followed by its
      own run of colons: it starts and ends with a colon. */
  predicate ColonLed(w: seq<Token>)
    decreases |w|
  {
    && |w| >= 1 && w[0] == Colon
    && (|w| == 1 || ColonLed(w[1..]) || (w[1] == Identifier && ColonLed(w[2..])))
  }

  /** A selector name: an optional leading identifier, then a colon-led
      list. */
  predicate SelectorName(w: seq<Token>)
  {
    ColonLed(w) || (|w| >= 1 && w[0] == Identifier && ColonLed(w[1..]))
  }

  /** The same language described by position: children are identifiers
      and colons, there is at least one child, and every identifier is
      immediately followed by a colon. */
  predicate SelectorShape(w: seq<Token>)
  {
    && |w| >= 1
    && (forall i :: 0 <= i < |w| ==> w[i] == Identifier || w[i] == Colon)
    && (forall i :: 0 <= i < |w| && w[i] == Identifier ==> i + 1 < |w| && w[i + 1] == Colon)
  }

  lemma AfterColonElim(w: seq<Token>)
    requires Matches(AfterColon, w)
    ensures || w == []
            || (|w| >= 1 && w[0] == Colon && Matches(AfterColon, w[1..]))
            || (|w| >= 2 && w[0] == Identifier && w[1] == Colon && Matches(AfterColon, w[2..]))
  {
    var u, v := SeqElim(Repeat(Lit(":")), Keywords, w);
    if u != [] {
      var c, u' := RepeatElim(Lit(":"), u);
      SplitOne(w, c, u', v);
      SeqIntro(Repeat(Lit(":")), Keywords, u', v);
    } else if v != [] {
      var s, v' := RepeatElim(Seq(Sym("identifier"), ColonRun), v);
      var a, c := SeqElim(Sym("identifier"), ColonRun, s);
      var c0, c' := SeqElim(Lit(":"), Repeat(Lit(":")), c);
      SplitTwo(w, v, s, a, c, c0, c', v');
      SeqIntro(Repeat(Lit(":")), Keywords, c', v');
    } else {
      EmptyJoin(w, u, v);
    }
  }

  lemma AfterColonIntroColon(w: seq<Token>)
    requires |w| >= 1 && w[0] == Colon && Matches(AfterColon, w[1..])
    ensures Matches(AfterColon, w)
  {
    var u, v := SeqElim(Repeat(Lit(":")), Keywords, w[1..]);
    JoinOne(w, u, v);
    RepeatIntro(Lit(":"), [Colon], u);
    SeqIntro(Repeat(Lit(":")), Keywords, [Colon] + u, v);
  }

  lemma AfterColonIntroKeyword(w: seq<Token>)
    requires |w| >= 2 && w[0] == Identifier && w[1] == Colon && Matches(AfterColon, w[2..])
    ensures Matches(AfterColon, w)
  {
    var c, v := SeqElim(Repeat(Lit(":")), Keywords, w[2..]);
    JoinTwo(w, c, v);
    SeqIntro(Lit(":"), Repeat(Lit(":")), [Colon], c);
    SeqIntro(Sym("identifier"), ColonRun, [Identifier], [Colon] + c);
    RepeatIntro(Seq(Sym("identifier"), ColonRun), [Identifier] + ([Colon] + c), v);
    SeqIntro(Repeat(Lit(":")), Keywords, [], ([Identifier] + ([Colon] + c)) + v);
  }

  /** One step of `repeat(':')` followed by the keywords. */
  lemma AfterColonUnfold(w: seq<Token>)
    ensures Matches(AfterColon, w) <==>
      || w == []
      || (|w| >= 1 && w[0] == Colon && Matches(AfterColon, w[1..]))
      || (|w| >= 2 && w[0] == Identifier && w[1] == Colon && Matches(AfterColon, w[2..]))
  {
    if Matches(AfterColon, w) {
      AfterColonElim(w);
    }
    if w == [] {
      SeqIntro(Repeat(Lit(":")), Keywords, [], []);
    } else if w[0] == Colon && Matches(AfterColon, w[1..]) {
      AfterColonIntroColon(w);
    } else if |w| >= 2 && w[0] == Identifier && w[1] == Colon && Matches(AfterColon, w[2..]) {
      AfterColonIntroKeyword(w);
    }
  }

  lemma {:induction false} AfterColonLanguage(w: seq<Token>)
    ensures Matches(AfterColon, w) <==> w == [] || SelectorName(w)
    decreases |w|
  {
    AfterColonUnfold(w);
    if |w| >= 1 {
      AfterColonLanguage(w[1..]);
    }
    if |w| >= 2 {
      AfterColonLanguage(w[2..]);
    }
    Drop2(w);
  }

  lemma ColonRunThenKeywordsElim(w: seq<Token>)
    requires Matches(Seq(ColonRun, Keywords), w)
    ensures ColonLed(w)
  {
    var c, v := SeqElim(ColonRun, Keywords, w);
    var c0, c' := SeqElim(Lit(":"), Repeat(Lit(":")), c);
    SplitOne(w, c0, c', v);
    SeqIntro(Repeat(Lit(":")), Keywords, c', v);
    AfterColonLanguage(w[1..]);
    Drop2(w);
  }

  lemma ColonRunThenKeywordsIntro(w: seq<Token>)
    requires ColonLed(w)
    ensures Matches(Seq(ColonRun, Keywords), w)
  {
    Drop2(w);
    AfterColonLanguage(w[1..]);
    var c, v := SeqElim(Repeat(Lit(":")), Keywords, w[1..]);
    JoinOne(w, c, v);
    SeqIntro(Lit(":"), Repeat(Lit(":")), [Colon], c);
    SeqIntro(ColonRun, Keywords, [Colon] + c, v);
  }

  /** `repeat1(':')` followed by the keywords is exactly a colon-led list. */
  lemma ColonRunThenKeywords(w: seq<Token>)
    ensures Matches(Seq(ColonRun, Keywords), w) <==> ColonLed(w)
  {
    if Matches(Seq(ColonRun, Keywords), w) {
      ColonRunThenKeywordsElim(w);
    }
    if ColonLed(w) {
      ColonRunThenKeywordsIntro(w);
    }
  }

  /** `method_identifier` admits exactly the selector names. */
  lemma MethodIdentifierChildren(w: seq<Token>)
    ensures Matches(MethodIdentifier, w) <==> SelectorName(w)
  {
    SeqOf3(Optional(Sym("identifier")), ColonRun, Keywords);
    OptionalSymThen("identifier", Seq(ColonRun, Keywords), w);
    ColonRunThenKeywords(w);
    if |w| >= 1 {
      ColonRunThenKeywords(w[1..]);
    }
  }

  lemma {:induction false} ColonLedShape(w: seq<Token>)
    requires ColonLed(w)
    ensures SelectorShape(w) && w[0] == Colon
    decreases |w|
  {
    if |w| >= 2 && ColonLed(w[1..]) {
      ColonLedShape(w[1..]);
      assert forall i :: 1 <= i < |w| ==> w[i] == w[1..][i - 1];
    } else if |w| >= 2 {
      ColonLedShape(w[2..]);
      assert forall i :: 2 <= i < |w| ==> w[i] == w[2..][i - 2];
    }
  }

  lemma {:induction false} ShapeColonLed(w: seq<Token>)
    requires SelectorShape(w) && w[0] == Colon
    ensures ColonLed(w)
    decreases |w|
  {
    if |w| >= 2 {
      assert forall i :: 0 <= i < |w| - 1 ==> w[1..][i] == w[i + 1];
      if w[1] == Colon {
        ShapeColonLed(w[1..]);
      } else {
        assert w[2] == Colon;
        assert forall i :: 0 <= i < |w| - 2 ==> w[2..][i] == w[i + 2];
        ShapeColonLed(w[2..]);
      }
    }
  }

  lemma ShapeIsName(w: seq<Token>)
    requires SelectorShape(w)
    ensures SelectorName(w)
  {
    if w[0] == Colon {
      ShapeColonLed(w);
    } else {
      assert w[1] == Colon;
      assert forall i :: 0 <= i < |w| - 1 ==> w[1..][i] == w[i + 1];
      ShapeColonLed(w[1..]);
    }
  }

  lemma NameIsShape(w: seq<Token>)
    requires SelectorName(w)
    ensures SelectorShape(w)
  {
    if ColonLed(w) {
      ColonLedShape(w);
    } else {
      ColonLedShape(w[1..]);
      assert forall i :: 1 <= i < |w| ==> w[i] == w[1..][i - 1];
    }
  }

  /** The grammar's selector names, described by position. */
  lemma SelectorNameShape(w: seq<Token>)
    ensures SelectorName(w) <==> SelectorShape(w)
  {
    if SelectorName(w) {
      NameIsShape(w);
    }
    if SelectorShape(w) {
      ShapeIsName(w);
    }
  }

  lemma SelectorNameSamples()
    ensures SelectorName([Colon]) && SelectorName([Identifier, Colon])
    ensures SelectorName([Identifier, Colon, Colon, Identifier, Colon])
    ensures !SelectorName([Identifier])
    ensures !SelectorName([Identifier, Identifier, Colon])
    ensures !SelectorName([Identifier, Colon, Identifier])
  {
    assert [Identifier, Colon][1..] == [Colon];
    SelectorNameShape([Identifier, Colon, Colon, Identifier, Colon]);
    SelectorNameShape([Identifier]);
    SelectorNameShape([Identifier, Identifier, Colon]);
    SelectorNameShape([Identifier, Colon, Identifier]);
  }

  /** `:`, `name:` and `a::b:` are selector names; a bare identifier, two
      adjacent identifiers and a trailing identifier are not. */
  lemma MethodIdentifierExamples()
    ensures Matches(MethodIdentifier, [Colon])
    ensures Matches(MethodIdentifier, [Identifier, Colon])
    ensures Matches(MethodIdentifier, [Identifier, Colon, Colon, Identifier, Colon])
    ensures !Matches(MethodIdentifier, [Identifier])
    ensures !Matches(MethodIdentifier, [Identifier, Identifier, Colon])
    ensures !Matches(MethodIdentifier, [Identifier, Colon, Identifier])
  {
    SelectorNameSamples();
    MethodIdentifierChildren([Colon]);
    MethodIdentifierChildren([Identifier, Colon]);
    MethodIdentifierChildren([Identifier, Colon, Colon, Identifier, Colon]);
    MethodIdentifierChildren([Identifier]);
    MethodIdentifierChildren([Identifier, Identifier, Colon]);
    MethodIdentifierChildren([Identifier, Colon, Identifier]);
  }

  // ---------------------------------------------------------------------
  // Facts about token lists, kept apart from the grammar so that the
  // proofs above need no reasoning about sequence equality

  lemma EmptyJoin(w: seq<Token>, u: seq<Token>, v: seq<Token>)
    requires w == u + v && u == [] && v == []
    ensures w == []
  {
  }

  lemma SplitOne(w: seq<Token>, c: seq<Token>, u: seq<Token>, v: seq<Token>)
    requires |c| == 1 && (w == c + u + v || w == (c + u) + v)
    ensures |w| >= 1 && w[0] == c[0] && w[1..] == u + v
  {
  }

  lemma SplitTwo(w: seq<Token>, v: seq<Token>, s: seq<Token>, a: seq<Token>,
                 c: seq<Token>, c0: seq<Token>, c': seq<Token>, v': seq<Token>)
    requires w == [] + v && v == s + v' && s == a + c && c == c0 + c'
    requires |a| == 1 && |c0| == 1
    ensures |w| >= 2 && w[0] == a[0] && w[1] == c0[0] && w[2..] == c' + v'
  {
  }

  lemma JoinOne(w: seq<Token>, u: seq<Token>, v: seq<Token>)
    requires |w| >= 1 && w[1..] == u + v
    ensures w == ([w[0]] + u) + v
  {
  }

  lemma JoinTwo(w: seq<Token>, c: seq<Token>, v: seq<Token>)
    requires |w| >= 2 && w[2..] == c + v
    ensures w == [] + (([w[0]] + ([w[1]] + c)) + v)
  {
  }
}
