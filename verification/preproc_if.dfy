/** The conditional-compilation rule families built by `preprocIf(suffix,
    content)` in grammar.js, and the four families the grammar instantiates
    (one per context: block items, implementation definitions, interface
    declarations and enumerators). */
module PreprocIf {
  import opened GrammarExpr
  import opened RuleHelpers

  /** The alternative of an `#if`/`#elif`: an `#else` or an `#elif` rule of
      the same family.  A suffixed family aliases its own rules to the
      unsuffixed names; the unsuffixed family refers to its rules directly. */
  function ElseBlock(suffix: string): Expr
  {
    Choice([
      if suffix != "" then Alias(Sym("preproc_else" + suffix), Named("preproc_else")) else Sym("preproc_else"),
      if suffix != "" then Alias(Sym("preproc_elif" + suffix), Named("preproc_elif")) else Sym("preproc_elif")
    ])
  }

  /** The members of the preproc_if rule's sequence. */
  function IfItems(suffix: string, content: Expr): seq<Expr>
  {
    [
      Preprocessor("if"),
      Field("condition", Sym("_preproc_expression")),
      Lit("\n"),
      Repeat(content),
      Field("alternative", Optional(ElseBlock(suffix))),
      Preprocessor("endif")
    ]
  }

  function IfRule(suffix: string, content: Expr): Expr
  {
    SeqOf(IfItems(suffix, content))
  }

  /** The alternative of an `#ifdef`: the else block, or the unsuffixed
      preproc_elifdef rule. */
  function IfdefAlternativeRule(suffix: string): Expr
  {
    Choice([ElseBlock(suffix), Sym("preproc_elifdef")])
  }

  /** The members of the preproc_ifdef rule's sequence. */
  function IfdefItems(suffix: string, content: Expr): seq<Expr>
  {
    [
      Choice([Preprocessor("ifdef"), Preprocessor("ifndef")]),
      Field("name", Sym("identifier")),
      Repeat(content),
      Field("alternative", Optional(IfdefAlternativeRule(suffix))),
      Preprocessor("endif")
    ]
  }

  function IfdefRule(suffix: string, content: Expr): Expr
  {
    SeqOf(IfdefItems(suffix, content))
  }

  function ElseRule(content: Expr): Expr
  {
    Seq(Preprocessor("else"), Repeat(content))
  }

  /** The members of the preproc_elif rule's sequence. */
  function ElifItems(suffix: string, content: Expr): seq<Expr>
  {
    [
      Preprocessor("elif"),
      Field("condition", Sym("_preproc_expression")),
      Lit("\n"),
      Repeat(content),
      Field("alternative", Optional(ElseBlock(suffix)))
    ]
  }

  function ElifRule(suffix: string, content: Expr): Expr
  {
    SeqOf(ElifItems(suffix, content))
  }

  /** The members of the preproc_elifdef rule's sequence. */
  function ElifdefItems(suffix: string, content: Expr): seq<Expr>
  {
    [
      Choice([Preprocessor("elifdef"), Preprocessor("elifndef")]),
      Field("name", Sym("identifier")),
      Repeat(content),
      Field("alternative", Optional(ElseBlock(suffix)))
    ]
  }

  function ElifdefRule(suffix: string, content: Expr): Expr
  {
    SeqOf(ElifdefItems(suffix, content))
  }

  /** The five rule names of the family with the given suffix. */
  function FamilyNames(suffix: string): set<string>
  {
    {"preproc_if" + suffix, "preproc_ifdef" + suffix, "preproc_else" + suffix,
     "preproc_elif" + suffix, "preproc_elifdef" + suffix}
  }

  /** `preprocIf(suffix, content)`: the family's rules by name. */
  function Family(suffix: string, content: Expr): (rules: map<string, Expr>)
    ensures rules.Keys == FamilyNames(suffix)
  {
    map[
      "preproc_if" + suffix := IfRule(suffix, content),
      "preproc_ifdef" + suffix := IfdefRule(suffix, content),
      "preproc_else" + suffix := ElseRule(content),
      "preproc_elif" + suffix := ElifRule(suffix, content),
      "preproc_elifdef" + suffix := ElifdefRule(suffix, content)
    ]
  }

  // ---------------------------------------------------------------------
  // The four instantiations

  const BlockItemContent: Expr :=
    Choice([Sym("_block_item"), Sym("attribute_specifier"), Sym("property_implementation")])
  const ImplementationContent: Expr := Sym("implementation_definition")
  const InterfaceContent: Expr := Sym("interface_declaration")
  const EnumeratorContent: Expr := Seq(Sym("enumerator"), Lit(","))

  /** The rules the grammar adds by its four calls of preprocIf. */
  function Families(): map<string, Expr>
  {
    Family("", BlockItemContent)
    + Family("_in_implementation_definition", ImplementationContent)
    + Family("_in_interface_declaration", InterfaceContent)
    + Family("_in_enumerator", EnumeratorContent)
  }

  // ---------------------------------------------------------------------
  // Properties

  /** A family has five distinct rules, whatever its suffix. */
  lemma FamilyHasFiveRules(suffix: string, content: Expr)
    ensures |Family(suffix, content)| == 5
  {
    FamilyNamesFive(suffix);
    assert |Family(suffix, content)| == |Family(suffix, content).Keys|;
  }

  lemma FamilyNamesFive(s: string)
    ensures |FamilyNames(s)| == 5
  {
    var a, b, c, d, e := "preproc_if" + s, "preproc_ifdef" + s, "preproc_else" + s,
      "preproc_elif" + s, "preproc_elifdef" + s;
    assert |a| == 10 + |s| && |b| == 13 + |s| && |c| == 12 + |s| && |d| == 12 + |s| && |e| == 15 + |s|;
    assert c[10] == 's' && d[10] == 'i';
    assert FamilyNames(s) == {a} + {b} + {c} + {d} + {e};
  }

  /** Whatever the suffix, the alternative of an `#if` or `#elif` shows up
      as a child of kind preproc_else or preproc_elif: the aliases hide the
      suffix from the tree. */
  lemma ElseBlockChildren(suffix: string, w: seq<Token>)
    ensures Matches(ElseBlock(suffix), w) <==> w == [Named("preproc_else")] || w == [Named("preproc_elif")]
  {
    var alts := ElseBlock(suffix).alts;
    if w == [Named("preproc_else")] {
      assert Matches(Sym("preproc_else" + suffix), [Named("preproc_else" + suffix)]);
      assert Matches(alts[0], w);
    }
    if w == [Named("preproc_elif")] {
      assert Matches(Sym("preproc_elif" + suffix), [Named("preproc_elif" + suffix)]);
      assert Matches(alts[1], w);
    }
  }

  /** The else block refers to the else and elif rules of its own family. */
  lemma ElseBlockRefersToOwnFamily(suffix: string)
    ensures Refs(ElseBlock(suffix)) == {"preproc_else" + suffix, "preproc_elif" + suffix}
  {
    var alts := ElseBlock(suffix).alts;
    if suffix != "" {
      assert Refs(alts[0]) == Refs(Sym("preproc_else" + suffix));
      assert Refs(alts[1]) == Refs(Sym("preproc_elif" + suffix));
    } else {
      assert "preproc_else" + suffix == "preproc_else";
      assert "preproc_elif" + suffix == "preproc_elif";
    }
    assert "preproc_else" + suffix in Refs(alts[0]);
    assert "preproc_elif" + suffix in Refs(alts[1]);
  }

  /** Every family's `#ifdef` may end in the unsuffixed preproc_elifdef
      rule, not in the family's own: with a suffix (all of the grammar's
      suffixes start with `_`) the `#elifdef` branch leaves the family. */
  lemma IfdefFallsBackToUnsuffixedElifdef(suffix: string, content: Expr)
    requires suffix != "" && suffix[0] == '_'
    ensures "preproc_elifdef" in Refs(IfdefRule(suffix, content))
    ensures "preproc_elifdef" !in FamilyNames(suffix)
  {
    var alt := IfdefAlternativeRule(suffix);
    assert "preproc_elifdef" in Refs(alt) by {
      assert 0 <= 1 < |alt.alts| && "preproc_elifdef" in Refs(alt.alts[1]);
    }
    assert "preproc_elifdef" in Refs(Field("alternative", Optional(alt)));
    var items := IfdefItems(suffix, content);
    SeqOfRefs(items, 3);
    ElifdefOutsideFamily(suffix);
  }

  lemma ElifdefOutsideFamily(suffix: string)
    requires suffix != "" && suffix[0] == '_'
    ensures "preproc_elifdef" !in FamilyNames(suffix)
  {
    var target := "preproc_elifdef";
    assert ("preproc_if" + suffix)[10] == '_' != target[10];
    assert ("preproc_ifdef" + suffix)[13] == '_' != target[13];
    assert ("preproc_else" + suffix)[12] == '_' != target[12];
    assert ("preproc_elif" + suffix)[12] == '_' != target[12];
    assert |"preproc_elifdef" + suffix| != |target|;
  }

  /** The alternatives an `#if` node may end with. */
  predicate IfAlternative(alt: seq<Token>)
  {
    alt == [] || alt == [Named("preproc_else")] || alt == [Named("preproc_elif")]
  }

  /** The children of an `#if` node: `#if`, its condition, a newline, any
      number of content items, an optional else/elif, and `#endif`. */
  function IfChildren(body: seq<Token>, alt: seq<Token>): seq<Token>
  {
    [Anon("#if"), Named("_preproc_expression"), Anon("\n")] + (body + (alt + [Anon("#endif")]))
  }

  lemma IfAlternativeMatches(suffix: string, alt: seq<Token>)
    ensures Matches(Field("alternative", Optional(ElseBlock(suffix))), alt) <==> IfAlternative(alt)
  {
    ElseBlockChildren(suffix, alt);
  }

  lemma IfItemsMatch(suffix: string, content: Expr, parts: seq<seq<Token>>, k: nat)
    requires |parts| == 6 && k < 6
    ensures Matches(IfItems(suffix, content)[k], parts[k]) <==>
      if k == 0 then parts[0] == [Anon("#if")]
      else if k == 1 then parts[1] == [Named("_preproc_expression")]
      else if k == 2 then parts[2] == [Anon("\n")]
      else if k == 3 then Matches(Repeat(content), parts[3])
      else if k == 4 then IfAlternative(parts[4])
      else parts[5] == [Anon("#endif")]
  {
    var rule := IfItems(suffix, content);
    if k == 0 {
      assert "#" + "if" == "#if";
      PreprocessorChild("if", parts[0]);
    } else if k == 4 {
      IfAlternativeMatches(suffix, parts[4]);
    } else if k == 5 {
      assert "#" + "endif" == "#endif";
      PreprocessorChild("endif", parts[5]);
    }
  }

  /** Every `#if` built from content items and an allowed alternative is a
      word of the family's preproc_if rule. */
  lemma IfRuleAdmits(suffix: string, content: Expr, items: seq<seq<Token>>, alt: seq<Token>)
    requires AllMatch(content, items) && IfAlternative(alt)
    ensures Matches(IfRule(suffix, content), IfChildren(Flatten(items), alt))
  {
    var parts := [[Anon("#if")], [Named("_preproc_expression")], [Anon("\n")], Flatten(items), alt, [Anon("#endif")]];
    RepeatAll(content, items);
    forall k | 0 <= k < 6 ensures Matches(IfItems(suffix, content)[k], parts[k]) {
      IfItemsMatch(suffix, content, parts, k);
    }
    SeqOfIntro(IfItems(suffix, content), parts);
    IfPartsFlatten(Flatten(items), alt);
  }

  lemma IfPartsFlatten(body: seq<Token>, alt: seq<Token>)
    ensures Flatten([[Anon("#if")], [Named("_preproc_expression")], [Anon("\n")], body, alt, [Anon("#endif")]])
      == IfChildren(body, alt)
  {
    var parts := [[Anon("#if")], [Named("_preproc_expression")], [Anon("\n")], body, alt, [Anon("#endif")]];
    FlattenSix(parts);
    ThreeTokens(Anon("#if"), Named("_preproc_expression"), Anon("\n"), body + (alt + [Anon("#endif")]));
  }

  lemma ThreeTokens(a: Token, b: Token, c: Token, x: seq<Token>)
    ensures [a] + ([b] + ([c] + x)) == [a, b, c] + x
  {
  }

  /** Every word of a preproc_if rule is such an `#if`. */
  lemma IfRuleSplits(suffix: string, content: Expr, w: seq<Token>) returns (items: seq<seq<Token>>, alt: seq<Token>)
    requires Matches(IfRule(suffix, content), w)
    ensures AllMatch(content, items) && IfAlternative(alt)
    ensures w == IfChildren(Flatten(items), alt)
  {
    var parts := SeqOfElim(IfItems(suffix, content), w);
    forall k | 0 <= k < 6 ensures Matches(IfItems(suffix, content)[k], parts[k]) {
    }
    IfItemsMatch(suffix, content, parts, 0);
    IfItemsMatch(suffix, content, parts, 1);
    IfItemsMatch(suffix, content, parts, 2);
    IfItemsMatch(suffix, content, parts, 4);
    IfItemsMatch(suffix, content, parts, 5);
    items := RepeatParts(content, parts[3]);
    alt := parts[4];
    FlattenSix(parts);
    ThreeTokens(Anon("#if"), Named("_preproc_expression"), Anon("\n"), parts[3] + (parts[4] + parts[5]));
  }

  lemma FlattenSix(parts: seq<seq<Token>>)
    requires |parts| == 6
    ensures Flatten(parts) == parts[0] + (parts[1] + (parts[2] + (parts[3] + (parts[4] + parts[5]))))
  {
    assert parts[6..] == [] && parts[0..] == parts;
    FlattenStep(parts, 5);
    assert parts[5] + [] == parts[5];
    FlattenStep(parts, 4);
    FlattenStep(parts, 3);
    FlattenStep(parts, 2);
    FlattenStep(parts, 1);
    FlattenStep(parts, 0);
  }

  // ---------------------------------------------------------------------
  // preproc_ifdef, preproc_else, preproc_elif and preproc_elifdef

  /** The alternatives an `#ifdef` node may end with: those of an `#if`, or
      an unsuffixed preproc_elifdef. */
  predicate IfdefAlternative(alt: seq<Token>)
  {
    IfAlternative(alt) || alt == [Named("preproc_elifdef")]
  }

  predicate IfdefDirective(d: Token)
  {
    d == Anon("#ifdef") || d == Anon("#ifndef")
  }

  predicate ElifdefDirective(d: Token)
  {
    d == Anon("#elifdef") || d == Anon("#elifndef")
  }

  /** The children of an `#ifdef` node: the directive, the macro name, any
      number of content items, an optional alternative, and `#endif`. */
  function IfdefChildren(d: Token, body: seq<Token>, alt: seq<Token>): seq<Token>
  {
    [d, Named("identifier")] + (body + (alt + [Anon("#endif")]))
  }

  /** The children of an `#else` node: `#else`, then content items. */
  function ElseChildren(body: seq<Token>): seq<Token>
  {
    [Anon("#else")] + body
  }

  /** The children of an `#elif` node: `#elif`, its condition, a newline,
      content items and an optional alternative; no `#endif`. */
  function ElifChildren(body: seq<Token>, alt: seq<Token>): seq<Token>
  {
    [Anon("#elif"), Named("_preproc_expression"), Anon("\n")] + (body + alt)
  }

  /** The children of an `#elifdef` node: the directive, the macro name,
      content items and an optional alternative; no `#endif`. */
  function ElifdefChildren(d: Token, body: seq<Token>, alt: seq<Token>): seq<Token>
  {
    [d, Named("identifier")] + (body + alt)
  }

  lemma DirectivePair(a: string, b: string, w: seq<Token>)
    ensures Matches(Choice([Preprocessor(a), Preprocessor(b)]), w) <==>
      w == [Anon("#" + a)] || w == [Anon("#" + b)]
  {
    PreprocessorChild(a, w);
    PreprocessorChild(b, w);
    var alts := [Preprocessor(a), Preprocessor(b)];
    assert Matches(Choice(alts), w) <==> Matches(alts[0], w) || Matches(alts[1], w);
  }

  lemma IfdefAlternativeMatches(suffix: string, alt: seq<Token>)
    ensures Matches(Field("alternative", Optional(IfdefAlternativeRule(suffix))), alt) <==> IfdefAlternative(alt)
  {
    ElseBlockChildren(suffix, alt);
    var alts := IfdefAlternativeRule(suffix).alts;
    assert Matches(IfdefAlternativeRule(suffix), alt) <==> Matches(alts[0], alt) || Matches(alts[1], alt);
  }

  lemma IfdefItemsMatch(suffix: string, content: Expr, parts: seq<seq<Token>>, k: nat)
    requires |parts| == 5 && k < 5
    ensures Matches(IfdefItems(suffix, content)[k], parts[k]) <==>
      if k == 0 then |parts[0]| == 1 && IfdefDirective(parts[0][0])
      else if k == 1 then parts[1] == [Named("identifier")]
      else if k == 2 then Matches(Repeat(content), parts[2])
      else if k == 3 then IfdefAlternative(parts[3])
      else parts[4] == [Anon("#endif")]
  {
    if k == 0 {
      assert "#" + "ifdef" == "#ifdef" && "#" + "ifndef" == "#ifndef";
      DirectivePair("ifdef", "ifndef", parts[0]);
    } else if k == 3 {
      IfdefAlternativeMatches(suffix, parts[3]);
    } else if k == 4 {
      assert "#" + "endif" == "#endif";
      PreprocessorChild("endif", parts[4]);
    }
  }

  lemma IfdefPartsFlatten(d: Token, body: seq<Token>, alt: seq<Token>)
    ensures Flatten([[d], [Named("identifier")], body, alt, [Anon("#endif")]]) == IfdefChildren(d, body, alt)
  {
    FlattenFive([[d], [Named("identifier")], body, alt, [Anon("#endif")]]);
  }

  /** Every `#ifdef` or `#ifndef` built from content items and an allowed
      alternative is a word of the family's preproc_ifdef rule. */
  lemma IfdefRuleAdmits(suffix: string, content: Expr, d: Token, items: seq<seq<Token>>, alt: seq<Token>)
    requires IfdefDirective(d) && AllMatch(content, items) && IfdefAlternative(alt)
    ensures Matches(IfdefRule(suffix, content), IfdefChildren(d, Flatten(items), alt))
  {
    var parts := [[d], [Named("identifier")], Flatten(items), alt, [Anon("#endif")]];
    IfdefPartsFlatten(d, Flatten(items), alt);
    RepeatAll(content, items);
    forall k | 0 <= k < 5 ensures Matches(IfdefItems(suffix, content)[k], parts[k]) {
      IfdefItemsMatch(suffix, content, parts, k);
    }
    SeqOfIntro(IfdefItems(suffix, content), parts);
  }

  /** Every word of a preproc_ifdef rule is such an `#ifdef` or `#ifndef`. */
  lemma IfdefRuleSplits(suffix: string, content: Expr, w: seq<Token>)
    returns (d: Token, items: seq<seq<Token>>, alt: seq<Token>)
    requires Matches(IfdefRule(suffix, content), w)
    ensures IfdefDirective(d) && AllMatch(content, items) && IfdefAlternative(alt)
    ensures w == IfdefChildren(d, Flatten(items), alt)
  {
    var parts := SeqOfElim(IfdefItems(suffix, content), w);
    forall k | 0 <= k < 5 ensures Matches(IfdefItems(suffix, content)[k], parts[k]) {
    }
    IfdefItemsMatch(suffix, content, parts, 0);
    IfdefItemsMatch(suffix, content, parts, 1);
    IfdefItemsMatch(suffix, content, parts, 3);
    IfdefItemsMatch(suffix, content, parts, 4);
    IfdefSplitText(parts);
    items := RepeatParts(content, parts[2]);
    d, alt := parts[0][0], parts[3];
  }

  lemma IfdefSplitText(parts: seq<seq<Token>>)
    requires |parts| == 5 && |parts[0]| == 1
    requires parts[1] == [Named("identifier")] && parts[4] == [Anon("#endif")]
    ensures Flatten(parts) == IfdefChildren(parts[0][0], parts[2], parts[3])
  {
    FlattenFive(parts);
    assert parts[0] == [parts[0][0]];
  }

  /** An `#else` followed by content items is a word of the family's
      preproc_else rule. */
  lemma ElseRuleAdmits(content: Expr, items: seq<seq<Token>>)
    requires AllMatch(content, items)
    ensures Matches(ElseRule(content), ElseChildren(Flatten(items)))
  {
    assert "#" + "else" == "#else";
    PreprocessorChild("else", [Anon("#else")]);
    RepeatAll(content, items);
    SeqIntro(Preprocessor("else"), Repeat(content), [Anon("#else")], Flatten(items));
  }

  /** Every word of a preproc_else rule is `#else` followed by content items. */
  lemma ElseRuleSplits(content: Expr, w: seq<Token>) returns (items: seq<seq<Token>>)
    requires Matches(ElseRule(content), w)
    ensures AllMatch(content, items)
    ensures w == ElseChildren(Flatten(items))
  {
    var u, v := SeqElim(Preprocessor("else"), Repeat(content), w);
    assert "#" + "else" == "#else";
    PreprocessorChild("else", u);
    items := RepeatParts(content, v);
  }

  lemma ElifItemsMatch(suffix: string, content: Expr, parts: seq<seq<Token>>, k: nat)
    requires |parts| == 5 && k < 5
    ensures Matches(ElifItems(suffix, content)[k], parts[k]) <==>
      if k == 0 then parts[0] == [Anon("#elif")]
      else if k == 1 then parts[1] == [Named("_preproc_expression")]
      else if k == 2 then parts[2] == [Anon("\n")]
      else if k == 3 then Matches(Repeat(content), parts[3])
      else IfAlternative(parts[4])
  {
    if k == 0 {
      assert "#" + "elif" == "#elif";
      PreprocessorChild("elif", parts[0]);
    } else if k == 4 {
      IfAlternativeMatches(suffix, parts[4]);
    }
  }

  lemma ElifPartsFlatten(body: seq<Token>, alt: seq<Token>)
    ensures Flatten([[Anon("#elif")], [Named("_preproc_expression")], [Anon("\n")], body, alt])
      == ElifChildren(body, alt)
  {
    FlattenFive([[Anon("#elif")], [Named("_preproc_expression")], [Anon("\n")], body, alt]);
    ThreeTokens(Anon("#elif"), Named("_preproc_expression"), Anon("\n"), body + alt);
  }

  /** Every `#elif` built from content items and an allowed alternative is a
      word of the family's preproc_elif rule. */
  lemma ElifRuleAdmits(suffix: string, content: Expr, items: seq<seq<Token>>, alt: seq<Token>)
    requires AllMatch(content, items) && IfAlternative(alt)
    ensures Matches(ElifRule(suffix, content), ElifChildren(Flatten(items), alt))
  {
    var parts := [[Anon("#elif")], [Named("_preproc_expression")], [Anon("\n")], Flatten(items), alt];
    ElifPartsFlatten(Flatten(items), alt);
    RepeatAll(content, items);
    forall k | 0 <= k < 5 ensures Matches(ElifItems(suffix, content)[k], parts[k]) {
      ElifItemsMatch(suffix, content, parts, k);
    }
    SeqOfIntro(ElifItems(suffix, content), parts);
  }

  /** Every word of a preproc_elif rule is such an `#elif`. */
  lemma ElifRuleSplits(suffix: string, content: Expr, w: seq<Token>) returns (items: seq<seq<Token>>, alt: seq<Token>)
    requires Matches(ElifRule(suffix, content), w)
    ensures AllMatch(content, items) && IfAlternative(alt)
    ensures w == ElifChildren(Flatten(items), alt)
  {
    var parts := SeqOfElim(ElifItems(suffix, content), w);
    forall k | 0 <= k < 5 ensures Matches(ElifItems(suffix, content)[k], parts[k]) {
    }
    ElifItemsMatch(suffix, content, parts, 0);
    ElifItemsMatch(suffix, content, parts, 1);
    ElifItemsMatch(suffix, content, parts, 2);
    ElifItemsMatch(suffix, content, parts, 4);
    items := RepeatParts(content, parts[3]);
    alt := parts[4];
    FlattenFive(parts);
    ThreeTokens(Anon("#elif"), Named("_preproc_expression"), Anon("\n"), parts[3] + parts[4]);
  }

  lemma ElifdefItemsMatch(suffix: string, content: Expr, parts: seq<seq<Token>>, k: nat)
    requires |parts| == 4 && k < 4
    ensures Matches(ElifdefItems(suffix, content)[k], parts[k]) <==>
      if k == 0 then |parts[0]| == 1 && ElifdefDirective(parts[0][0])
      else if k == 1 then parts[1] == [Named("identifier")]
      else if k == 2 then Matches(Repeat(content), parts[2])
      else IfAlternative(parts[3])
  {
    if k == 0 {
      assert "#" + "elifdef" == "#elifdef" && "#" + "elifndef" == "#elifndef";
      DirectivePair("elifdef", "elifndef", parts[0]);
    } else if k == 3 {
      IfAlternativeMatches(suffix, parts[3]);
    }
  }

  lemma ElifdefPartsFlatten(d: Token, body: seq<Token>, alt: seq<Token>)
    ensures Flatten([[d], [Named("identifier")], body, alt]) == ElifdefChildren(d, body, alt)
  {
    FlattenFour([[d], [Named("identifier")], body, alt]);
  }

  /** Every `#elifdef` or `#elifndef` built from content items and an
      allowed alternative is a word of the family's preproc_elifdef rule. */
  lemma ElifdefRuleAdmits(suffix: string, content: Expr, d: Token, items: seq<seq<Token>>, alt: seq<Token>)
    requires ElifdefDirective(d) && AllMatch(content, items) && IfAlternative(alt)
    ensures Matches(ElifdefRule(suffix, content), ElifdefChildren(d, Flatten(items), alt))
  {
    var parts := [[d], [Named("identifier")], Flatten(items), alt];
    ElifdefPartsFlatten(d, Flatten(items), alt);
    RepeatAll(content, items);
    forall k | 0 <= k < 4 ensures Matches(ElifdefItems(suffix, content)[k], parts[k]) {
      ElifdefItemsMatch(suffix, content, parts, k);
    }
    SeqOfIntro(ElifdefItems(suffix, content), parts);
  }

  /** Every word of a preproc_elifdef rule is such an `#elifdef` or
      `#elifndef`. */
  lemma ElifdefRuleSplits(suffix: string, content: Expr, w: seq<Token>)
    returns (d: Token, items: seq<seq<Token>>, alt: seq<Token>)
    requires Matches(ElifdefRule(suffix, content), w)
    ensures ElifdefDirective(d) && AllMatch(content, items) && IfAlternative(alt)
    ensures w == ElifdefChildren(d, Flatten(items), alt)
  {
    var parts := SeqOfElim(ElifdefItems(suffix, content), w);
    forall k | 0 <= k < 4 ensures Matches(ElifdefItems(suffix, content)[k], parts[k]) {
    }
    ElifdefItemsMatch(suffix, content, parts, 0);
    ElifdefItemsMatch(suffix, content, parts, 1);
    ElifdefItemsMatch(suffix, content, parts, 3);
    ElifdefSplitText(parts);
    items := RepeatParts(content, parts[2]);
    d, alt := parts[0][0], parts[3];
  }

  lemma ElifdefSplitText(parts: seq<seq<Token>>)
    requires |parts| == 4 && |parts[0]| == 1 && parts[1] == [Named("identifier")]
    ensures Flatten(parts) == ElifdefChildren(parts[0][0], parts[2], parts[3])
  {
    FlattenFour(parts);
    assert parts[0] == [parts[0][0]];
  }

  /** Inside an enumerator list, `#ifdef X` around one enumerator with its
      comma, then `#endif`, is a word of preproc_ifdef_in_enumerator. */
  lemma EnumeratorIfdefExample()
    ensures Matches(IfdefRule("_in_enumerator", EnumeratorContent),
      [Anon("#ifdef"), Named("identifier"), Named("enumerator"), Comma, Anon("#endif")])
  {
    var item := [Named("enumerator"), Comma];
    EnumeratorIfdefText(item);
    EnumeratorFamilyContent(item);
    IfdefRuleAdmits("_in_enumerator", EnumeratorContent, Anon("#ifdef"), [item], []);
  }

  lemma EnumeratorIfdefText(item: seq<Token>)
    requires item == [Named("enumerator"), Comma]
    ensures IfdefChildren(Anon("#ifdef"), Flatten([item]), [])
      == [Anon("#ifdef"), Named("identifier"), Named("enumerator"), Comma, Anon("#endif")]
  {
    assert Flatten([item]) == item + Flatten([]);
  }

  lemma FlattenFive(parts: seq<seq<Token>>)
    requires |parts| == 5
    ensures Flatten(parts) == parts[0] + (parts[1] + (parts[2] + (parts[3] + parts[4])))
  {
    assert parts[5..] == [] && parts[0..] == parts;
    FlattenStep(parts, 4);
    assert parts[4] + [] == parts[4];
    FlattenStep(parts, 3);
    FlattenStep(parts, 2);
    FlattenStep(parts, 1);
    FlattenStep(parts, 0);
  }

  lemma FlattenFour(parts: seq<seq<Token>>)
    requires |parts| == 4
    ensures Flatten(parts) == parts[0] + (parts[1] + (parts[2] + parts[3]))
  {
    assert parts[4..] == [] && parts[0..] == parts;
    FlattenStep(parts, 3);
    assert parts[3] + [] == parts[3];
    FlattenStep(parts, 2);
    FlattenStep(parts, 1);
    FlattenStep(parts, 0);
  }

  /** Inside an enumerator list, every enumerator of a conditional block
      carries its own comma. */
  lemma EnumeratorFamilyContent(w: seq<Token>)
    ensures Matches(EnumeratorContent, w) <==> w == [Named("enumerator"), Comma]
  {
    if w == [Named("enumerator"), Comma] {
      SeqIntro(Sym("enumerator"), Lit(","), [Named("enumerator")], [Comma]);
      assert [Named("enumerator")] + [Comma] == w;
    }
  }

  /** Two families whose suffixes differ in length by 4 or by more than 5
      have no rule name in common. */
  lemma FamiliesApart(s1: string, s2: string)
    requires var d := |s1| - |s2|; d == 4 || d > 5
    ensures FamilyNames(s1) !! FamilyNames(s2)
  {
    forall n | n in FamilyNames(s1) ensures n !in FamilyNames(s2) {
      assert |n| - |s1| in {10, 12, 13, 15};
    }
  }

  /** The four families define twenty distinct rules. */
  lemma FamiliesDefineTwentyRules()
    ensures Families().Keys ==
      FamilyNames("") + FamilyNames("_in_implementation_definition")
      + FamilyNames("_in_interface_declaration") + FamilyNames("_in_enumerator")
    ensures |Families()| == 20
  {
    var a, b, c, d := FamilyNames(""), FamilyNames("_in_implementation_definition"),
      FamilyNames("_in_interface_declaration"), FamilyNames("_in_enumerator");
    assert Families().Keys == a + b + c + d;
    FamilySuffixesApart();
    FamilyNamesFive("");
    FamilyNamesFive("_in_implementation_definition");
    FamilyNamesFive("_in_interface_declaration");
    FamilyNamesFive("_in_enumerator");
    FourDisjointSize(a, b, c, d);
    assert |Families()| == |Families().Keys|;
  }

  lemma FamilySuffixesApart()
    ensures FamilyNames("") !! FamilyNames("_in_implementation_definition")
    ensures FamilyNames("") !! FamilyNames("_in_interface_declaration")
    ensures FamilyNames("") !! FamilyNames("_in_enumerator")
    ensures FamilyNames("_in_implementation_definition") !! FamilyNames("_in_interface_declaration")
    ensures FamilyNames("_in_implementation_definition") !! FamilyNames("_in_enumerator")
    ensures FamilyNames("_in_interface_declaration") !! FamilyNames("_in_enumerator")
  {
    var s0, s1, s2, s3 := "", "_in_implementation_definition", "_in_interface_declaration", "_in_enumerator";
    assert |s1| == 29 && |s2| == 25 && |s3| == 14;
    FamiliesApart(s1, s0);
    FamiliesApart(s2, s0);
    FamiliesApart(s3, s0);
    FamiliesApart(s1, s2);
    FamiliesApart(s1, s3);
    FamiliesApart(s2, s3);
  }

  lemma FourDisjointSize(a: set<string>, b: set<string>, c: set<string>, d: set<string>)
    requires a !! b && a !! c && a !! d && b !! c && b !! d && c !! d
    ensures |a + b + c + d| == |a| + |b| + |c| + |d|
  {
    DisjointUnionSize(a, b);
    DisjointUnionSize(a + b, c);
    DisjointUnionSize(a + b + c, d);
  }

  lemma DisjointUnionSize(x: set<string>, y: set<string>)
    requires x !! y
    ensures |x + y| == |x| + |y|
  {
    assert x * y == {};
  }
}
