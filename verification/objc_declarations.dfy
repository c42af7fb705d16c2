/** Declaration-level productions of the Objective-C grammar, with the
    children each admits: module imports, forward class declarations,
    protocol reference lists, property implementations, compatibility
    aliases and enumerator lists.  Identifiers and the other referenced
    rules are opaque children. */
module ObjcDeclarations {
  import opened GrammarExpr
  import opened RuleHelpers

  const Identifier: Token := Named("identifier")
  const Semicolon: Token := Anon(";")

  // ---------------------------------------------------------------------
  // module_import

  const ImportPath: Expr := Field("path", Seq(Sym("identifier"), Repeat(Seq(Lit("."), Sym("identifier")))))

  /** `@import a.b.c;` */
  const ModuleImport: Expr := SeqOf([Lit("@import"), ImportPath, Lit(";")])

  /** An import is `@import`, a dotted path of identifiers, and `;`. */
  lemma ModuleImportChildren(w: seq<Token>)
    ensures Matches(ModuleImport, w) <==>
      && |w| >= 2 && w[0] == Anon("@import") && w[|w| - 1] == Semicolon
      && Alternates(w[1..|w| - 1], Identifier, Anon("."))
  {
    SeqOf3(Lit("@import"), ImportPath, Lit(";"));
    Bracketed("@import", ImportPath, ";", w);
    if |w| >= 2 {
      SymList("identifier", ".", w[1..|w| - 1]);
    }
  }

  // ---------------------------------------------------------------------
  // class_declaration

  const ClassItem: Expr := Seq(Sym("identifier"), Optional(Sym("parameterized_arguments")))
  const ClassList: Expr := CommaSep1(ClassItem)

  /** `@ class A, B<T>;`: the `@` and `class` are two separate tokens. */
  const ClassDeclaration: Expr := SeqOf([Lit("@"), Lit("class"), ClassList, Lit(";")])

  /** Each declared class is a name, optionally with type arguments. */
  lemma ClassItemChildren(u: seq<Token>)
    ensures Matches(ClassItem, u) <==> u == [Identifier] || u == [Identifier, Named("parameterized_arguments")]
  {
    SymThen("identifier", Optional(Sym("parameterized_arguments")), u);
    if |u| >= 1 {
      assert u == [u[0]] + u[1..];
    }
  }

  lemma ClassDeclarationChildren(w: seq<Token>)
    ensures Matches(ClassDeclaration, w) <==>
      && |w| >= 3 && w[0] == Anon("@") && w[1] == Anon("class") && w[|w| - 1] == Semicolon
      && Matches(ClassList, w[2..|w| - 1])
  {
    SeqOf4(Lit("@"), Lit("class"), ClassList, Lit(";"));
    LitThen("@", Seq(Lit("class"), Seq(ClassList, Lit(";"))), w);
    if |w| >= 1 {
      Bracketed("class", ClassList, ";", w[1..]);
      if |w| >= 3 {
        assert w[1..][1..|w[1..]| - 1] == w[2..|w| - 1];
      }
    }
  }

  lemma ClassListExample()
    ensures Matches(ClassList, [Identifier, Comma, Identifier, Named("parameterized_arguments")])
  {
    var items := [[Identifier], [Identifier, Named("parameterized_arguments")]];
    ClassItemChildren(items[0]);
    ClassItemChildren(items[1]);
    CommaSep1Joins(ClassItem, items);
    var seps := Commas(1);
    assert seps == [[Comma]];
    assert seps[1..] == [] && items[1..][1..] == [];
    assert Chain(seps, items[1..]) == seps[0] + items[1] + Chain([], []);
    assert Interleave(items, seps) == [Identifier, Comma, Identifier, Named("parameterized_arguments")];
  }

  /** A forward declaration of a plain and a generic class; `@class` written
      as one token is not this rule. */
  lemma ClassDeclarationExamples()
    ensures Matches(ClassDeclaration,
      [Anon("@"), Anon("class"), Identifier, Comma, Identifier, Named("parameterized_arguments"), Semicolon])
    ensures !Matches(ClassDeclaration, [Anon("@class"), Identifier, Semicolon])
  {
    var w := [Anon("@"), Anon("class"), Identifier, Comma, Identifier, Named("parameterized_arguments"), Semicolon];
    ClassListExample();
    assert w[2..|w| - 1] == [Identifier, Comma, Identifier, Named("parameterized_arguments")];
    ClassDeclarationChildren(w);
    ClassDeclarationChildren([Anon("@class"), Identifier, Semicolon]);
  }

  // ---------------------------------------------------------------------
  // protocol_reference_list

  /** `<A, B>` */
  const ProtocolReferenceList: Expr := SeqOf([Lit("<"), CommaSep1(Sym("identifier")), Lit(">")])

  lemma ProtocolReferenceListChildren(w: seq<Token>)
    ensures Matches(ProtocolReferenceList, w) <==>
      && |w| >= 2 && w[0] == Anon("<") && w[|w| - 1] == Anon(">")
      && Alternates(w[1..|w| - 1], Identifier, Comma)
  {
    SeqOf3(Lit("<"), CommaSep1(Sym("identifier")), Lit(">"));
    Bracketed("<", CommaSep1(Sym("identifier")), ">", w);
    if |w| >= 2 {
      CommaSep1OfSym("identifier", w[1..|w| - 1]);
    }
  }

  // ---------------------------------------------------------------------
  // property_implementation

  const SynthesizeItem: Expr := Seq(Sym("identifier"), Optional(Seq(Lit("="), Sym("identifier"))))
  const SynthesizeList: Expr := CommaSep1(SynthesizeItem)
  const Synthesize: Expr := SeqOf([Lit("@synthesize"), SynthesizeList, Lit(";")])

  const DynamicNames: Expr := Seq(CommaSep1(Sym("identifier")), Lit(";"))
  const DynamicTail: Expr := Seq(Optional(Lit("(class)")), DynamicNames)

  /** `@dynamic (class) a, b;`: the class marker is the single token `(class)`. */
  const Dynamic: Expr := SeqOf([Lit("@dynamic"), Optional(Lit("(class)")), CommaSep1(Sym("identifier")), Lit(";")])
  const PropertyImplementation: Expr := Choice([Synthesize, Dynamic])

  /** Each synthesized property is a name, optionally `= ivar`. */
  lemma SynthesizeItemChildren(u: seq<Token>)
    ensures Matches(SynthesizeItem, u) <==> u == [Identifier] || u == [Identifier, Anon("="), Identifier]
  {
    SymThen("identifier", Optional(Seq(Lit("="), Sym("identifier"))), u);
    if |u| >= 1 {
      assert u == [u[0]] + u[1..];
      LitThen("=", Sym("identifier"), u[1..]);
      if |u| >= 2 {
        assert u[1..] == [u[1]] + u[2..];
      }
    }
  }

  lemma SynthesizeChildren(w: seq<Token>)
    ensures Matches(Synthesize, w) <==>
      && |w| >= 2 && w[0] == Anon("@synthesize") && w[|w| - 1] == Semicolon
      && Matches(SynthesizeList, w[1..|w| - 1])
  {
    SeqOf3(Lit("@synthesize"), SynthesizeList, Lit(";"));
    Bracketed("@synthesize", SynthesizeList, ";", w);
  }

  /** `a, b, c;`: identifiers separated by commas, then a semicolon. */
  predicate NamesThenSemicolon(v: seq<Token>)
  {
    |v| >= 1 && v[|v| - 1] == Semicolon && Alternates(v[..|v| - 1], Identifier, Comma)
  }

  lemma DynamicNamesChildren(v: seq<Token>)
    ensures Matches(DynamicNames, v) <==> NamesThenSemicolon(v)
  {
    ThenLit(CommaSep1(Sym("identifier")), ";", v);
    if |v| >= 1 {
      CommaSep1OfSym("identifier", v[..|v| - 1]);
    }
  }

  lemma DynamicTailChildren(v: seq<Token>)
    ensures Matches(DynamicTail, v) <==>
      NamesThenSemicolon(v) || (|v| >= 1 && v[0] == Anon("(class)") && NamesThenSemicolon(v[1..]))
  {
    OptionalLitThen("(class)", DynamicNames, v);
    DynamicNamesChildren(v);
    if |v| >= 1 {
      DynamicNamesChildren(v[1..]);
    }
  }

  /** `@dynamic`, optionally the class marker, then the names and `;`. */
  lemma DynamicChildren(w: seq<Token>)
    ensures Matches(Dynamic, w) <==>
      && |w| >= 1 && w[0] == Anon("@dynamic")
      && (NamesThenSemicolon(w[1..]) || (|w| >= 2 && w[1] == Anon("(class)") && NamesThenSemicolon(w[2..])))
  {
    SeqOf4(Lit("@dynamic"), Optional(Lit("(class)")), CommaSep1(Sym("identifier")), Lit(";"));
    LitThen("@dynamic", DynamicTail, w);
    if |w| >= 1 {
      DynamicTailChildren(w[1..]);
      if |w| >= 2 {
        assert w[1..][1..] == w[2..];
      }
    }
  }

  /** A property implementation is a synthesize or a dynamic statement. */
  lemma PropertyImplementationForms(w: seq<Token>)
    ensures Matches(PropertyImplementation, w) <==> Matches(Synthesize, w) || Matches(Dynamic, w)
  {
    Choice2(Synthesize, Dynamic, w);
  }

  /** `@dynamic (class) x;` needs the marker as one token: written as three
      tokens `(`, `class`, `)` it is rejected. */
  lemma ClassMarkerIsOneToken()
    ensures Matches(PropertyImplementation, [Anon("@dynamic"), Anon("(class)"), Identifier, Semicolon])
    ensures !Matches(PropertyImplementation,
      [Anon("@dynamic"), Anon("("), Anon("class"), Anon(")"), Identifier, Semicolon])
  {
    var good := [Anon("@dynamic"), Anon("(class)"), Identifier, Semicolon];
    var bad := [Anon("@dynamic"), Anon("("), Anon("class"), Anon(")"), Identifier, Semicolon];
    PropertyImplementationForms(good);
    PropertyImplementationForms(bad);
    DynamicChildren(good);
    assert good[2..][..1] == [Identifier];
    DynamicChildren(bad);
    SynthesizeChildren(bad);
    assert bad[1..][..|bad[1..]| - 1][0] == Anon("(");
  }

  // ---------------------------------------------------------------------
  // compatibility_alias_declaration

  const AliasNames: Expr := Seq(Field("class", Sym("identifier")), Field("alias", Sym("identifier")))

  /** `@compatibility_alias Alias Original`, with no closing `;`. */
  const CompatibilityAliasDeclaration: Expr :=
    SeqOf([Lit("@compatibility_alias"), Field("class", Sym("identifier")), Field("alias", Sym("identifier"))])

  lemma AliasNamesChildren(v: seq<Token>)
    ensures Matches(AliasNames, v) <==> v == [Identifier, Identifier]
  {
    var cls, alias := Field("class", Sym("identifier")), Field("alias", Sym("identifier"));
    if Matches(AliasNames, v) {
      var a, b := SeqElim(cls, alias, v);
    }
    if v == [Identifier, Identifier] {
      SeqIntro(cls, alias, [Identifier], [Identifier]);
      assert [Identifier] + [Identifier] == v;
    }
  }

  lemma CompatibilityAliasChildren(w: seq<Token>)
    ensures Matches(CompatibilityAliasDeclaration, w) <==>
      w == [Anon("@compatibility_alias"), Identifier, Identifier]
  {
    SeqOf3(Lit("@compatibility_alias"), Field("class", Sym("identifier")), Field("alias", Sym("identifier")));
    LitThen("@compatibility_alias", AliasNames, w);
    if |w| >= 1 {
      AliasNamesChildren(w[1..]);
      assert w == [w[0]] + w[1..];
    }
  }

  /** The declaration ends after the second name: a `;` there is not part
      of it. */
  lemma CompatibilityAliasHasNoSemicolon()
    ensures !Matches(CompatibilityAliasDeclaration, [Anon("@compatibility_alias"), Identifier, Identifier, Semicolon])
  {
    CompatibilityAliasChildren([Anon("@compatibility_alias"), Identifier, Identifier, Semicolon]);
  }

  // ---------------------------------------------------------------------
  // enumerator_list

  const Enumerator: Token := Named("enumerator")
  const Modifiers: Token := Named("_declaration_modifiers")

  const PlainEnumerator: Expr := Seq(Sym("enumerator"), Optional(Sym("_declaration_modifiers")))
  const ConditionalEnumerators: Expr := Alias(Sym("preproc_ifdef_in_enumerator"), Named("preproc_ifdef"))
  const EnumeratorElement: Expr := Choice([PlainEnumerator, ConditionalEnumerators])
  const EnumeratorBody: Expr := OptionalCommaSep(EnumeratorElement)
  const EnumeratorClose: Expr := Seq(Optional(Lit(",")), Lit("}"))

  /** `{ A, B = 1, #ifdef X C #endif }` with an optional trailing comma. */
  const EnumeratorList: Expr := SeqOf([Lit("{"), EnumeratorBody, Optional(Lit(",")), Lit("}")])

  lemma PlainEnumeratorChildren(u: seq<Token>)
    ensures Matches(PlainEnumerator, u) <==> u == [Enumerator] || u == [Enumerator, Modifiers]
  {
    SymThen("enumerator", Optional(Sym("_declaration_modifiers")), u);
    if |u| >= 1 {
      assert u == [u[0]] + u[1..];
    }
  }

  lemma ConditionalEnumeratorsChildren(u: seq<Token>)
    ensures Matches(ConditionalEnumerators, u) <==> u == [Named("preproc_ifdef")]
  {
    assert Matches(Sym("preproc_ifdef_in_enumerator"), [Named("preproc_ifdef_in_enumerator")]);
  }

  /** An element is an enumerator, optionally with declaration modifiers, or
      a conditional block shown as `preproc_ifdef`. */
  lemma EnumeratorElementChildren(u: seq<Token>)
    ensures Matches(EnumeratorElement, u) <==>
      u == [Enumerator] || u == [Enumerator, Modifiers] || u == [Named("preproc_ifdef")]
  {
    Choice2(PlainEnumerator, ConditionalEnumerators, u);
    PlainEnumeratorChildren(u);
    ConditionalEnumeratorsChildren(u);
  }

  /** The closing part: `}` or `, }`. */
  lemma EnumeratorCloseChildren(v: seq<Token>)
    ensures Matches(EnumeratorClose, v) <==> v == [Anon("}")] || v == [Comma, Anon("}")]
  {
    OptionalLitThen(",", Lit("}"), v);
    if |v| >= 1 {
      assert v == [v[0]] + v[1..];
    }
  }

  lemma CloseElim(x: Expr, w: seq<Token>)
    requires Matches(Seq(x, EnumeratorClose), w)
    ensures |w| >= 1 && w[|w| - 1] == Anon("}")
    ensures Matches(x, w[..|w| - 1]) || (|w| >= 2 && w[|w| - 2] == Comma && Matches(x, w[..|w| - 2]))
  {
    var u, v := SeqElim(x, EnumeratorClose, w);
    EnumeratorCloseChildren(v);
    if v == [Anon("}")] {
      assert u == w[..|w| - 1];
    } else {
      assert u == w[..|w| - 2];
    }
  }

  lemma CloseIntroAt(x: Expr, w: seq<Token>, k: nat)
    requires k <= |w| && Matches(x, w[..k])
    requires w[k..] == [Anon("}")] || w[k..] == [Comma, Anon("}")]
    ensures Matches(Seq(x, EnumeratorClose), w)
  {
    EnumeratorCloseChildren(w[k..]);
    SeqIntro(x, EnumeratorClose, w[..k], w[k..]);
    assert w[..k] + w[k..] == w;
  }

  lemma CloseIntro(x: Expr, w: seq<Token>)
    requires |w| >= 1 && w[|w| - 1] == Anon("}")
    requires Matches(x, w[..|w| - 1]) || (|w| >= 2 && w[|w| - 2] == Comma && Matches(x, w[..|w| - 2]))
    ensures Matches(Seq(x, EnumeratorClose), w)
  {
    if Matches(x, w[..|w| - 1]) {
      assert w[|w| - 1..] == [Anon("}")];
      CloseIntroAt(x, w, |w| - 1);
    } else {
      assert w[|w| - 2..] == [Comma, Anon("}")];
      CloseIntroAt(x, w, |w| - 2);
    }
  }

  /** A list followed by the closing part. */
  lemma ListThenClose(x: Expr, w: seq<Token>)
    ensures Matches(Seq(x, EnumeratorClose), w) <==>
      && |w| >= 1 && w[|w| - 1] == Anon("}")
      && (Matches(x, w[..|w| - 1]) || (|w| >= 2 && w[|w| - 2] == Comma && Matches(x, w[..|w| - 2])))
  {
    if Matches(Seq(x, EnumeratorClose), w) {
      CloseElim(x, w);
    }
    if && |w| >= 1 && w[|w| - 1] == Anon("}")
       && (Matches(x, w[..|w| - 1]) || (|w| >= 2 && w[|w| - 2] == Comma && Matches(x, w[..|w| - 2])))
    {
      CloseIntro(x, w);
    }
  }

  /** An enumerator list is `{`, an optionalCommaSep of elements, an
      optional comma, and `}`. */
  lemma EnumeratorListChildren(w: seq<Token>)
    ensures Matches(EnumeratorList, w) <==>
      && |w| >= 2 && w[0] == Anon("{") && w[|w| - 1] == Anon("}")
      && (|| Matches(EnumeratorBody, w[1..|w| - 1])
          || (|w| >= 3 && w[|w| - 2] == Comma && Matches(EnumeratorBody, w[1..|w| - 2])))
  {
    SeqOf4(Lit("{"), EnumeratorBody, Optional(Lit(",")), Lit("}"));
    LitThen("{", Seq(EnumeratorBody, EnumeratorClose), w);
    if |w| >= 1 {
      var rest := w[1..];
      ListThenClose(EnumeratorBody, rest);
      if |rest| >= 1 {
        assert rest[..|rest| - 1] == w[1..|w| - 1];
      }
      if |rest| >= 2 {
        assert rest[..|rest| - 2] == w[1..|w| - 2];
      }
    }
  }

  /** A non-empty element list never ends with a comma. */
  lemma BodyEndsWithElement(v: seq<Token>)
    ensures Matches(EnumeratorBody, v) && v != [] ==> v[|v| - 1] != Comma
  {
    if Matches(EnumeratorBody, v) && v != [] {
      forall x | Matches(EnumeratorElement, x) ensures x != [] && x[|x| - 1] != Comma {
        EnumeratorElementChildren(x);
      }
      OptionalCommaSep1NoTrailingComma(EnumeratorElement, v);
    }
  }

  /** The only trailing comma is the list's own optional one: a closing
      comma is never doubled, and it follows an element unless the list is
      just `{ , }`. */
  lemma EnumeratorListTrailingComma(w: seq<Token>)
    requires Matches(EnumeratorList, w)
    requires |w| >= 3 && w[|w| - 2] == Comma
    ensures |w| == 3 || w[|w| - 3] != Comma
  {
    EnumeratorListChildren(w);
    ClosingCommaFollowsElement(w);
  }

  lemma ClosingCommaFollowsElement(w: seq<Token>)
    requires |w| >= 3 && w[|w| - 2] == Comma
    requires || Matches(EnumeratorBody, w[1..|w| - 1])
             || Matches(EnumeratorBody, w[1..|w| - 2])
    ensures |w| == 3 || w[|w| - 3] != Comma
  {
    var mid, body := w[1..|w| - 1], w[1..|w| - 2];
    assert mid[|mid| - 1] == Comma;
    BodyEndsWithElement(mid);
    BodyEndsWithElement(body);
    if |w| > 3 {
      assert body[|body| - 1] == w[|w| - 3];
    }
  }

  /** `{ , }` is an enumerator list, and enumerators need no comma between
      them. */
  lemma EnumeratorListQuirks()
    ensures Matches(EnumeratorList, [Anon("{"), Comma, Anon("}")])
    ensures Matches(EnumeratorList, [Anon("{"), Enumerator, Enumerator, Anon("}")])
  {
    var lone := [Anon("{"), Comma, Anon("}")];
    EnumeratorListChildren(lone);
    assert lone[1..|lone| - 2] == [];

    EnumeratorElementChildren([Enumerator]);
    OptionalCommaSep1Joins(EnumeratorElement, [[Enumerator], [Enumerator]], [[]]);
    assert Chain([[]], [[Enumerator]]) == [] + [Enumerator] + Chain([], []);
    assert Interleave([[Enumerator], [Enumerator]], [[]]) == [Enumerator, Enumerator];
    var two := [Anon("{"), Enumerator, Enumerator, Anon("}")];
    assert two[1..|two| - 1] == [Enumerator, Enumerator];
    EnumeratorListChildren(two);
  }
}
