/** The rule-building helpers defined at the end of grammar.js:
    commaSep, commaSep1, optionalCommaSep, optionalCommaSep1 and
    preprocessor, with the languages they denote. */
module RuleHelpers {
  import opened GrammarExpr

  const Comma: Token := Anon(",")

  /** `commaSep1(rule)`: the rule, then any number of `,` rule. */
  function CommaSep1(r: Expr): Expr
  {
    Seq(r, Repeat(Seq(Lit(","), r)))
  }

  /** `commaSep(rule)`: an optional commaSep1. */
  function CommaSep(r: Expr): Expr
  {
    Optional(CommaSep1(r))
  }

  /** `optionalCommaSep1(rule)`: the rule, then any number of rules each
      preceded by an optional `,`. */
  function OptionalCommaSep1(r: Expr): Expr
  {
    Seq(r, Repeat(Seq(Optional(Lit(",")), r)))
  }

  /** `optionalCommaSep(rule)`: an optional optionalCommaSep1. */
  function OptionalCommaSep(r: Expr): Expr
  {
    Optional(OptionalCommaSep1(r))
  }

  /** `preprocessor(command)`: the token `#[ \t]*command`, aliased to the
      anonymous node `#command`. */
  function Preprocessor(command: string): Expr
  {
    Alias(Directive(command), Anon("#" + command))
  }

  /** `n` separators, each one comma. */
  function Commas(n: nat): (r: seq<seq<Token>>)
    ensures |r| == n && forall k :: 0 <= k < n ==> r[k] == [Comma]
  {
    seq(n, _ => [Comma])
  }

  /** A separator of optionalCommaSep1: nothing or one comma. */
  predicate OptComma(sep: seq<Token>)
  {
    sep == [] || sep == [Comma]
  }

  /** `t c t c ... t`: a `t`, then any number of `c t` pairs. */
  predicate Alternates(w: seq<Token>, t: Token, c: Token)
  {
    |w| >= 1 && w[0] == t && Pairs(w[1..], c, t)
  }

  /** `c t c t ...`: any number of `c t` pairs. */
  predicate Pairs(w: seq<Token>, c: Token, t: Token)
    decreases |w|
  {
    w == [] || (|w| >= 2 && w[0] == c && w[1] == t && Pairs(w[2..], c, t))
  }

  /** Pairs by position: an even number of children, `c` at every even
      position and `t` at every odd one. */
  lemma {:induction false} PairsPositions(w: seq<Token>, c: Token, t: Token)
    ensures Pairs(w, c, t) <==>
      |w| % 2 == 0 && forall i :: 0 <= i < |w| ==> w[i] == (if i % 2 == 0 then c else t)
    decreases |w|
  {
    if |w| >= 2 {
      PairsPositions(w[2..], c, t);
      if forall i :: 0 <= i < |w| ==> w[i] == (if i % 2 == 0 then c else t) {
        forall i | 0 <= i < |w[2..]| ensures w[2..][i] == (if i % 2 == 0 then c else t) {
          assert w[2..][i] == w[i + 2] && (i + 2) % 2 == i % 2;
        }
      }
      if Pairs(w, c, t) {
        forall i | 2 <= i < |w| ensures w[i] == (if i % 2 == 0 then c else t) {
          assert w[i] == w[2..][i - 2] && (i - 2) % 2 == i % 2;
        }
      }
    }
  }

  /** Alternates by position: an odd number of children, `t` at every even
      position and `c` at every odd one. */
  lemma AlternatesPositions(w: seq<Token>, t: Token, c: Token)
    ensures Alternates(w, t, c) <==>
      |w| % 2 == 1 && forall i :: 0 <= i < |w| ==> w[i] == (if i % 2 == 0 then t else c)
  {
    if |w| >= 1 {
      var v := w[1..];
      PairsPositions(v, c, t);
      if forall i :: 0 <= i < |w| ==> w[i] == (if i % 2 == 0 then t else c) {
        forall i | 0 <= i < |v| ensures v[i] == (if i % 2 == 0 then c else t) {
          assert v[i] == w[i + 1] && ((i + 1) % 2 == 0 <==> i % 2 == 1);
        }
      }
      if Alternates(w, t, c) {
        forall i | 1 <= i < |w| ensures w[i] == (if i % 2 == 0 then t else c) {
          assert w[i] == v[i - 1] && ((i - 1) % 2 == 0 <==> i % 2 == 1);
        }
      }
    }
  }

  // ---------------------------------------------------------------------
  // commaSep1 and commaSep

  /** Every non-empty list of words of `r`, joined with single commas, is a
      word of commaSep1(r). */
  lemma CommaSep1Joins(r: Expr, items: seq<seq<Token>>)
    requires |items| >= 1 && AllMatch(r, items)
    ensures Matches(CommaSep1(r), Interleave(items, Commas(|items| - 1)))
  {
    ListIntro(r, Lit(","), items, Commas(|items| - 1));
  }

  /** Every word of commaSep1(r) is a non-empty list of words of `r` joined
      with single commas. */
  lemma CommaSep1Splits(r: Expr, w: seq<Token>) returns (items: seq<seq<Token>>)
    requires Matches(CommaSep1(r), w)
    ensures |items| >= 1 && AllMatch(r, items)
    ensures w == Interleave(items, Commas(|items| - 1))
  {
    var seps;
    items, seps := ListElim(r, Lit(","), w);
    assert seps == Commas(|items| - 1);
  }

  /** commaSep(r) adds exactly the empty list to commaSep1(r). */
  lemma CommaSepAddsEmpty(r: Expr, w: seq<Token>)
    ensures Matches(CommaSep(r), w) <==> w == [] || Matches(CommaSep1(r), w)
  {
  }

  /** optionalCommaSep(r) adds exactly the empty list to optionalCommaSep1(r). */
  lemma OptionalCommaSepAddsEmpty(r: Expr, w: seq<Token>)
    ensures Matches(OptionalCommaSep(r), w) <==> w == [] || Matches(OptionalCommaSep1(r), w)
  {
  }

  lemma {:induction false} RepeatPairsElim(k: string, s: string, w: seq<Token>)
    requires Matches(Repeat(Seq(Lit(s), Sym(k))), w)
    ensures Pairs(w, Anon(s), Named(k))
    decreases |w|
  {
    if w != [] {
      var chunk, rest := RepeatElim(Seq(Lit(s), Sym(k)), w);
      var u, v := SeqElim(Lit(s), Sym(k), chunk);
      RepeatPairsElim(k, s, rest);
      assert w == [Anon(s), Named(k)] + rest;
      assert w[2..] == rest;
    }
  }

  lemma {:induction false} RepeatPairsIntro(k: string, s: string, w: seq<Token>)
    requires Pairs(w, Anon(s), Named(k))
    ensures Matches(Repeat(Seq(Lit(s), Sym(k))), w)
    decreases |w|
  {
    if w != [] {
      var c, t := Anon(s), Named(k);
      RepeatPairsIntro(k, s, w[2..]);
      SeqIntro(Lit(s), Sym(k), [c], [t]);
      assert [c] + [t] == [c, t];
      RepeatIntro(Seq(Lit(s), Sym(k)), [c, t], w[2..]);
      assert w == [c, t] + w[2..];
    }
  }

  /** `repeat(seq(s, k))`: pairs of the literal and the symbol. */
  lemma RepeatPairs(k: string, s: string, w: seq<Token>)
    ensures Matches(Repeat(Seq(Lit(s), Sym(k))), w) <==> Pairs(w, Anon(s), Named(k))
  {
    if Matches(Repeat(Seq(Lit(s), Sym(k))), w) {
      RepeatPairsElim(k, s, w);
    }
    if Pairs(w, Anon(s), Named(k)) {
      RepeatPairsIntro(k, s, w);
    }
  }

  /** A list of one symbol separated by one literal is exactly an
      alternation of the two, so it neither starts nor ends with the
      separator and never holds two of either in a row. */
  lemma SymList(k: string, s: string, w: seq<Token>)
    ensures Matches(Seq(Sym(k), Repeat(Seq(Lit(s), Sym(k)))), w) <==> Alternates(w, Named(k), Anon(s))
  {
    SymUnit(k);
    UnitThen(Sym(k), {Named(k)}, Repeat(Seq(Lit(s), Sym(k))), w);
    if |w| >= 1 {
      RepeatPairs(k, s, w[1..]);
    }
  }

  /** commaSep1 of a single child kind: exactly `k , k , ... , k`. */
  lemma CommaSep1OfSym(k: string, w: seq<Token>)
    ensures Matches(CommaSep1(Sym(k)), w) <==> Alternates(w, Named(k), Comma)
  {
    SymList(k, ",", w);
  }

  // ---------------------------------------------------------------------
  // optionalCommaSep1 and optionalCommaSep

  lemma OptCommaMatches(sep: seq<Token>)
    ensures Matches(Optional(Lit(",")), sep) <==> OptComma(sep)
  {
  }

  /** Every non-empty list of words of `r`, with nothing or one comma
      between each two consecutive ones, is a word of optionalCommaSep1(r). */
  lemma OptionalCommaSep1Joins(r: Expr, items: seq<seq<Token>>, seps: seq<seq<Token>>)
    requires |items| >= 1 && |seps| == |items| - 1 && AllMatch(r, items)
    requires forall k :: 0 <= k < |seps| ==> OptComma(seps[k])
    ensures Matches(OptionalCommaSep1(r), Interleave(items, seps))
  {
    forall k | 0 <= k < |seps| ensures Matches(Optional(Lit(",")), seps[k]) {
      OptCommaMatches(seps[k]);
    }
    ListIntro(r, Optional(Lit(",")), items, seps);
  }

  /** Every word of optionalCommaSep1(r) is a non-empty list of words of `r`
      with nothing or one comma between each two consecutive ones. */
  lemma OptionalCommaSep1Splits(r: Expr, w: seq<Token>) returns (items: seq<seq<Token>>, seps: seq<seq<Token>>)
    requires Matches(OptionalCommaSep1(r), w)
    ensures |items| >= 1 && |seps| == |items| - 1 && AllMatch(r, items)
    ensures forall k :: 0 <= k < |seps| ==> OptComma(seps[k])
    ensures w == Interleave(items, seps)
  {
    items, seps := ListElim(r, Optional(Lit(",")), w);
    forall k | 0 <= k < |seps| ensures OptComma(seps[k]) {
      OptCommaMatches(seps[k]);
    }
  }

  lemma {:induction false} ChainEndsWithLastItem(seps: seq<seq<Token>>, items: seq<seq<Token>>)
    requires |seps| == |items| >= 1 && items[|items| - 1] != []
    ensures Chain(seps, items) != []
    ensures Chain(seps, items)[|Chain(seps, items)| - 1] == items[|items| - 1][|items[|items| - 1]| - 1]
    decreases |items|
  {
    if |items| == 1 {
      assert Chain(seps[1..], items[1..]) == [];
    } else {
      ChainEndsWithLastItem(seps[1..], items[1..]);
    }
  }

  /** The list ends where its last item ends: when no word of `r` is empty
      or ends with a comma, no word of optionalCommaSep1(r) ends with one. */
  lemma OptionalCommaSep1NoTrailingComma(r: Expr, w: seq<Token>)
    requires forall x :: Matches(r, x) ==> x != [] && x[|x| - 1] != Comma
    requires Matches(OptionalCommaSep1(r), w)
    ensures w != [] && w[|w| - 1] != Comma
  {
    var items, seps := OptionalCommaSep1Splits(r, w);
    var last := items[|items| - 1];
    assert Matches(r, last);
    assert last != [] && last[|last| - 1] != Comma;
    InterleaveEndsWithLastItem(items, seps);
  }

  lemma InterleaveEndsWithLastItem(items: seq<seq<Token>>, seps: seq<seq<Token>>)
    requires |items| >= 1 && |seps| == |items| - 1 && items[|items| - 1] != []
    ensures Interleave(items, seps) != []
    ensures Interleave(items, seps)[|Interleave(items, seps)| - 1] == items[|items| - 1][|items[|items| - 1]| - 1]
  {
    if |items| == 1 {
      assert Interleave(items, seps) == items[0] + Chain(seps, []);
    } else {
      ChainEndsWithLastItem(seps, items[1..]);
    }
  }

  /** Unlike commaSep1, optionalCommaSep1 accepts items written side by side
      with no comma between them. */
  lemma OptionalCommaSep1Juxtaposes(k: string)
    ensures Matches(OptionalCommaSep1(Sym(k)), [Named(k), Named(k)])
    ensures !Matches(CommaSep1(Sym(k)), [Named(k), Named(k)])
  {
    OptionalCommaSep1Joins(Sym(k), [[Named(k)], [Named(k)]], [[]]);
    assert Chain([[]], [[Named(k)]]) == [] + [Named(k)] + Chain([], []);
    assert Interleave([[Named(k)], [Named(k)]], [[]]) == [Named(k), Named(k)];
    CommaSep1OfSym(k, [Named(k), Named(k)]);
  }

  // ---------------------------------------------------------------------
  // preprocessor

  /** However many blanks and tabs separate `#` from the command in the
      source text, the child is the one anonymous node `#command`. */
  lemma PreprocessorChild(command: string, w: seq<Token>)
    ensures Matches(Preprocessor(command), w) <==> w == [Anon("#" + command)]
  {
    var text := "#" + command;
    assert text[|text| - |command|..] == command;
    assert IsDirectiveText(text, command);
    assert Matches(Directive(command), [Anon(text)]);
  }

  /** The directive token accepts `#`, then any blanks and tabs, then the
      command, and nothing that lacks the leading `#`. */
  lemma DirectiveLexemes(command: string, blanks: string)
    requires forall i :: 0 <= i < |blanks| ==> blanks[i] == ' ' || blanks[i] == '\t'
    ensures IsDirectiveText("#" + blanks + command, command)
    ensures !IsDirectiveText(blanks + command, command)
  {
    var text := "#" + blanks + command;
    assert text[|text| - |command|..] == command;
    forall i | 1 <= i < |text| - |command| ensures text[i] == ' ' || text[i] == '\t' {
      assert text[i] == blanks[i - 1];
    }
    if |blanks| > 0 {
      assert (blanks + command)[0] == blanks[0];
    } else {
      assert blanks + command == command;
    }
  }
}
