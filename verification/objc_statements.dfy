/** The exception-handling statements of Objective-C and of Microsoft's
    structured exception handling: `@try`/`__try`, `@catch`/`__catch` and
    `@finally`/`__finally`.  Compound statements and type names are opaque
    children. */
module ObjcStatements {
  import opened GrammarExpr

  const Compound: Token := Named("compound_statement")
  const CatchClause: Token := Named("catch_clause")
  const FinallyClause: Token := Named("finally_clause")

  // ---------------------------------------------------------------------
  // try_statement

  const CatchRun: Expr := Repeat1(Sym("catch_clause"))
  const CatchesThenFinally: Expr := Seq(CatchRun, Optional(Sym("finally_clause")))

  /** What follows the body: catch clauses with an optional finally clause,
      or a finally clause alone. */
  const Handlers: Expr := Choice([CatchesThenFinally, Sym("finally_clause")])

  const TryStatement: Expr :=
    SeqOf([Choice([Lit("@try"), Lit("__try")]), Sym("compound_statement"), Handlers])

  predicate AllCatches(h: seq<Token>)
  {
    forall i :: 0 <= i < |h| ==> h[i] == CatchClause
  }

  /** One or more handlers: every one but the last is a catch clause, and
      the last is a catch or a finally clause. */
  predicate HandlerList(h: seq<Token>)
  {
    && |h| >= 1
    && AllCatches(h[..|h| - 1])
    && (h[|h| - 1] == CatchClause || h[|h| - 1] == FinallyClause)
  }

  lemma CatchRunChildren(u: seq<Token>)
    ensures Matches(CatchRun, u) <==> |u| >= 1 && AllCatches(u)
  {
    SymUnit("catch_clause");
    Repeat1Unit(Sym("catch_clause"), {CatchClause}, u);
  }

  lemma CatchesThenFinallyElim(h: seq<Token>)
    requires Matches(CatchesThenFinally, h)
    ensures HandlerList(h) && h[0] == CatchClause
  {
    var u, v := SeqElim(CatchRun, Optional(Sym("finally_clause")), h);
    CatchRunChildren(u);
    if v == [] {
      assert h == u;
      assert h[..|h| - 1] == u[..|u| - 1];
    } else {
      assert h == u + [FinallyClause];
      assert h[..|h| - 1] == u;
    }
  }

  lemma CatchesThenFinallyIntro(h: seq<Token>)
    requires HandlerList(h) && h[0] == CatchClause
    ensures Matches(CatchesThenFinally, h)
  {
    if h[|h| - 1] == CatchClause {
      CatchRunChildren(h);
      SeqIntro(CatchRun, Optional(Sym("finally_clause")), h, []);
      assert h + [] == h;
    } else {
      var u := h[..|h| - 1];
      CatchRunChildren(u);
      SeqIntro(CatchRun, Optional(Sym("finally_clause")), u, [FinallyClause]);
      assert u + [FinallyClause] == h;
    }
  }

  /** The handlers after the body are exactly a handler list. */
  lemma HandlersChildren(h: seq<Token>)
    ensures Matches(Handlers, h) <==> HandlerList(h)
  {
    Choice2(CatchesThenFinally, Sym("finally_clause"), h);
    if Matches(CatchesThenFinally, h) {
      CatchesThenFinallyElim(h);
    }
    if HandlerList(h) {
      if h[0] == CatchClause {
        CatchesThenFinallyIntro(h);
      } else {
        assert h == [FinallyClause];
      }
    }
  }

  /** A try statement is `@try` or `__try`, the body, and a handler list. */
  lemma TryStatementChildren(w: seq<Token>)
    ensures Matches(TryStatement, w) <==>
      && |w| >= 3 && (w[0] == Anon("@try") || w[0] == Anon("__try")) && w[1] == Compound
      && HandlerList(w[2..])
  {
    Drop2(w);
    SeqOf3(Choice([Lit("@try"), Lit("__try")]), Sym("compound_statement"), Handlers);
    KeywordThen("@try", "__try", Seq(Sym("compound_statement"), Handlers), w);
    if |w| >= 1 {
      SymThen("compound_statement", Handlers, w[1..]);
    }
    if |w| >= 2 {
      HandlersChildren(w[2..]);
    }
  }

  /** A finally clause comes last, so it never precedes a catch clause and
      there is at most one. */
  lemma FinallyComesLast(w: seq<Token>)
    requires Matches(TryStatement, w)
    ensures forall i :: 2 <= i < |w| && w[i] == FinallyClause ==> i == |w| - 1
  {
    TryStatementChildren(w);
    HandlersEndWithFinally(w);
  }

  lemma HandlersEndWithFinally(w: seq<Token>)
    requires |w| >= 3 && HandlerList(w[2..])
    ensures forall i :: 2 <= i < |w| && w[i] == FinallyClause ==> i == |w| - 1
  {
    var h := w[2..];
    forall i | 2 <= i < |w| - 1 ensures w[i] == CatchClause {
      assert w[i] == h[..|h| - 1][i - 2];
    }
  }

  lemma TryStatementExamples()
    ensures Matches(TryStatement, [Anon("@try"), Compound, CatchClause, CatchClause, FinallyClause])
    ensures Matches(TryStatement, [Anon("__try"), Compound, FinallyClause])
    ensures !Matches(TryStatement, [Anon("@try"), Compound])
    ensures !Matches(TryStatement, [Anon("@try"), Compound, FinallyClause, CatchClause])
  {
    var a := [Anon("@try"), Compound, CatchClause, CatchClause, FinallyClause];
    TryStatementChildren(a);
    assert a[2..][..2] == [CatchClause, CatchClause];
    var b := [Anon("__try"), Compound, FinallyClause];
    TryStatementChildren(b);
    assert b[2..][..0] == [];
    TryStatementChildren([Anon("@try"), Compound]);
    var c := [Anon("@try"), Compound, FinallyClause, CatchClause];
    TryStatementChildren(c);
    assert c[2..][..1][0] == FinallyClause;
  }

  // ---------------------------------------------------------------------
  // catch_clause and finally_clause

  const CatchParameterType: Expr := Choice([Lit("..."), Sym("type_name")])
  const CatchParameter: Expr := SeqOf([Lit("("), CatchParameterType, Lit(")")])
  const CatchTail: Expr := Seq(Optional(CatchParameter), Sym("compound_statement"))

  const CatchClauseRule: Expr :=
    SeqOf([Choice([Lit("@catch"), Lit("__catch")]), Optional(CatchParameter), Sym("compound_statement")])

  const FinallyClauseRule: Expr :=
    SeqOf([Choice([Lit("@finally"), Lit("__finally")]), Sym("compound_statement")])

  /** What a catch clause may declare: nothing, `(...)`, or `(T)`. */
  predicate CatchParameterText(p: seq<Token>)
  {
    || p == []
    || p == [Anon("("), Anon("..."), Anon(")")]
    || p == [Anon("("), Named("type_name"), Anon(")")]
  }

  lemma CatchParameterTypeChildren(u: seq<Token>)
    ensures Matches(CatchParameterType, u) <==> u == [Anon("...")] || u == [Named("type_name")]
  {
    Choice2(Lit("..."), Sym("type_name"), u);
  }

  lemma OptionalCatchParameterChildren(p: seq<Token>)
    ensures Matches(Optional(CatchParameter), p) <==> CatchParameterText(p)
  {
    SeqOf3(Lit("("), CatchParameterType, Lit(")"));
    Bracketed("(", CatchParameterType, ")", p);
    if |p| >= 2 {
      CatchParameterTypeChildren(p[1..|p| - 1]);
      if |p| == 3 {
        assert p == [p[0], p[1..|p| - 1][0], p[2]];
      }
    }
  }

  lemma CatchTailChildren(v: seq<Token>)
    ensures Matches(CatchTail, v) <==>
      |v| >= 1 && v[|v| - 1] == Compound && CatchParameterText(v[..|v| - 1])
  {
    ThenSym(Optional(CatchParameter), "compound_statement", v);
    if |v| >= 1 {
      OptionalCatchParameterChildren(v[..|v| - 1]);
    }
  }

  /** A catch clause is `@catch` or `__catch`, an optional parameter, and
      the body. */
  lemma CatchClauseChildren(w: seq<Token>)
    ensures Matches(CatchClauseRule, w) <==>
      && |w| >= 2 && (w[0] == Anon("@catch") || w[0] == Anon("__catch")) && w[|w| - 1] == Compound
      && CatchParameterText(w[1..|w| - 1])
  {
    InnerSlice(w);
    SeqOf3(Choice([Lit("@catch"), Lit("__catch")]), Optional(CatchParameter), Sym("compound_statement"));
    KeywordThen("@catch", "__catch", CatchTail, w);
    if |w| >= 1 {
      CatchTailChildren(w[1..]);
    }
  }

  /** A finally clause is exactly `@finally` or `__finally` and the body. */
  lemma FinallyClauseChildren(w: seq<Token>)
    ensures Matches(FinallyClauseRule, w) <==>
      w == [Anon("@finally"), Compound] || w == [Anon("__finally"), Compound]
  {
    assert [Choice([Lit("@finally"), Lit("__finally")]), Sym("compound_statement")][1..] == [Sym("compound_statement")];
    KeywordThen("@finally", "__finally", Sym("compound_statement"), w);
    if |w| >= 1 {
      assert w == [w[0]] + w[1..];
    }
  }
}
