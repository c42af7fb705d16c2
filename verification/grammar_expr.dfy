/** Grammar expressions as built by the tree-sitter rule DSL (seq, choice,
    repeat, optional, alias, field, literal strings, rule references), and
    a plain context-free "matches" relation over what a rule derives.

    A word is what one rule derives in one step: an anonymous symbol is the
    text of a literal token, a named symbol is a reference to another rule.
    Rule references are opaque leaves, and a rule's language is the set of
    words it admits.  Where every reference names a visible rule, a word is
    also the child list of the rule's node. */
module GrammarExpr {

  /** One symbol of a word: an anonymous token or a named rule. */
  datatype Token = Anon(text: string) | Named(kind: string)

  /** The rule DSL.  `Seq` is binary (see SeqOf for the n-ary form) and
      `Choice` keeps its members in order, as the DSL's `members` list. */
  datatype Expr =
    | Blank
    | Lit(text: string)
    | Sym(name: string)
    | Directive(command: string)
    | Seq(first: Expr, second: Expr)
    | Choice(alts: seq<Expr>)
    | Repeat(body: Expr)
    | Optional(body: Expr)
    | Alias(body: Expr, target: Token)
    | Field(fieldName: string, body: Expr)

  /** The lexemes of the regular expression `#[ \t]*command`. */
  predicate IsDirectiveText(text: string, command: string)
  {
    && |text| >= 1 + |command|
    && text[0] == '#'
    && text[|text| - |command|..] == command
    && forall i :: 1 <= i < |text| - |command| ==> text[i] == ' ' || text[i] == '\t'
  }

  /** `w` is a list of children that `e` admits.  A repetition consumes
      non-empty chunks, which leaves its language unchanged. */
  ghost predicate Matches(e: Expr, w: seq<Token>)
    decreases e, |w|
  {
    match e
    case Blank => w == []
    case Lit(s) => w == [Anon(s)]
    case Sym(k) => w == [Named(k)]
    case Directive(c) => |w| == 1 && w[0].Anon? && IsDirectiveText(w[0].text, c)
    case Seq(a, b) => exists i :: 0 <= i <= |w| && Matches(a, w[..i]) && Matches(b, w[i..])
    case Choice(alts) => exists i :: 0 <= i < |alts| && Matches(alts[i], w)
    case Repeat(r) =>
      w == [] || exists i :: 1 <= i <= |w| && Matches(r, w[..i]) && Matches(Repeat(r), w[i..])
    case Optional(r) => w == [] || Matches(r, w)
    case Alias(r, t) => w == [t] && exists u: Token :: Matches(r, [u])
    case Field(_, r) => Matches(r, w)
  }

  /** `repeat1(e)`: one or more occurrences. */
  function Repeat1(e: Expr): Expr
  {
    Seq(e, Repeat(e))
  }

  /** `seq(e0, e1, ...)` as a right-nested chain of binary sequences. */
  function SeqOf(items: seq<Expr>): Expr
  {
    if |items| == 0 then Blank
    else if |items| == 1 then items[0]
    else Seq(items[0], SeqOf(items[1..]))
  }

  /** The concatenation of a list of words. */
  function Flatten(parts: seq<seq<Token>>): seq<Token>
  {
    if parts == [] then [] else parts[0] + Flatten(parts[1..])
  }

  ghost predicate AllMatch(e: Expr, parts: seq<seq<Token>>)
  {
    forall k :: 0 <= k < |parts| ==> Matches(e, parts[k])
  }

  // ---------------------------------------------------------------------
  // Introduction and elimination rules

  lemma SeqIntro(a: Expr, b: Expr, u: seq<Token>, v: seq<Token>)
    requires Matches(a, u) && Matches(b, v)
    ensures Matches(Seq(a, b), u + v)
  {
    assert (u + v)[..|u|] == u;
    assert (u + v)[|u|..] == v;
  }

  lemma SeqElim(a: Expr, b: Expr, w: seq<Token>) returns (u: seq<Token>, v: seq<Token>)
    requires Matches(Seq(a, b), w)
    ensures Matches(a, u) && Matches(b, v) && w == u + v
  {
    var i :| 0 <= i <= |w| && Matches(a, w[..i]) && Matches(b, w[i..]);
    u, v := w[..i], w[i..];
  }

  lemma RepeatIntro(r: Expr, u: seq<Token>, v: seq<Token>)
    requires Matches(r, u) && Matches(Repeat(r), v)
    ensures Matches(Repeat(r), u + v)
  {
    if u == [] {
      assert u + v == v;
    } else {
      assert (u + v)[..|u|] == u;
      assert (u + v)[|u|..] == v;
    }
  }

  lemma RepeatElim(r: Expr, w: seq<Token>) returns (u: seq<Token>, v: seq<Token>)
    requires Matches(Repeat(r), w) && w != []
    ensures Matches(r, u) && Matches(Repeat(r), v) && w == u + v && u != []
  {
    var i :| 1 <= i <= |w| && Matches(r, w[..i]) && Matches(Repeat(r), w[i..]);
    u, v := w[..i], w[i..];
  }

  lemma ChoiceIntro(alts: seq<Expr>, i: nat, w: seq<Token>)
    requires i < |alts| && Matches(alts[i], w)
    ensures Matches(Choice(alts), w)
  {
  }

  /** A sequence admits exactly the concatenations of words its parts admit. */
  lemma {:induction false} SeqOfIntro(items: seq<Expr>, parts: seq<seq<Token>>)
    requires |items| == |parts|
    requires forall k :: 0 <= k < |items| ==> Matches(items[k], parts[k])
    ensures Matches(SeqOf(items), Flatten(parts))
    decreases |items|
  {
    if |items| == 0 {
    } else if |items| == 1 {
      assert parts[1..] == [];
      assert Flatten(parts) == parts[0] + [] == parts[0];
      assert Matches(items[0], parts[0]);
    } else {
      SeqOfIntro(items[1..], parts[1..]);
      SeqIntro(items[0], SeqOf(items[1..]), parts[0], Flatten(parts[1..]));
    }
  }

  lemma {:induction false} SeqOfElim(items: seq<Expr>, w: seq<Token>) returns (parts: seq<seq<Token>>)
    requires Matches(SeqOf(items), w)
    ensures |parts| == |items|
    ensures forall k :: 0 <= k < |items| ==> Matches(items[k], parts[k])
    ensures w == Flatten(parts)
    decreases |items|
  {
    if |items| == 0 {
      parts := [];
    } else if |items| == 1 {
      parts := [w];
      assert Flatten(parts) == w + Flatten([]);
    } else {
      var u, v := SeqElim(items[0], SeqOf(items[1..]), w);
      var rest := SeqOfElim(items[1..], v);
      parts := [u] + rest;
      assert parts[1..] == rest;
    }
  }

  /** The names of the rules that `e` refers to. */
  function Refs(e: Expr): set<string>
  {
    match e
    case Blank => {}
    case Lit(_) => {}
    case Sym(k) => {k}
    case Directive(_) => {}
    case Seq(a, b) => Refs(a) + Refs(b)
    case Choice(alts) => set i, k | 0 <= i < |alts| && k in Refs(alts[i]) :: k
    case Repeat(r) => Refs(r)
    case Optional(r) => Refs(r)
    case Alias(r, _) => Refs(r)
    case Field(_, r) => Refs(r)
  }

  /** A sequence refers to every rule its parts refer to. */
  lemma {:induction false} SeqOfRefs(items: seq<Expr>, i: nat)
    requires i < |items|
    ensures Refs(items[i]) <= Refs(SeqOf(items))
    decreases |items|
  {
    if |items| > 1 && i > 0 {
      SeqOfRefs(items[1..], i - 1);
    }
  }

  lemma FlattenStep(parts: seq<seq<Token>>, i: nat)
    requires i < |parts|
    ensures Flatten(parts[i..]) == parts[i] + Flatten(parts[i + 1..])
  {
    assert parts[i..][1..] == parts[i + 1..];
  }

  /** A repetition admits exactly the concatenations of words of its body. */
  lemma {:induction false} RepeatAll(r: Expr, parts: seq<seq<Token>>)
    requires AllMatch(r, parts)
    ensures Matches(Repeat(r), Flatten(parts))
    decreases |parts|
  {
    if parts != [] {
      RepeatAll(r, parts[1..]);
      RepeatIntro(r, parts[0], Flatten(parts[1..]));
    }
  }

  lemma {:induction false} RepeatParts(r: Expr, w: seq<Token>) returns (parts: seq<seq<Token>>)
    requires Matches(Repeat(r), w)
    ensures AllMatch(r, parts) && w == Flatten(parts)
    ensures forall k :: 0 <= k < |parts| ==> parts[k] != []
    decreases |w|
  {
    if w == [] {
      parts := [];
    } else {
      var u, v := RepeatElim(r, w);
      var rest := RepeatParts(r, v);
      parts := [u] + rest;
      assert parts[1..] == rest;
    }
  }

  /** A chain `s0 i0 s1 i1 ...` of separator and item words. */
  function Chain(seps: seq<seq<Token>>, items: seq<seq<Token>>): seq<Token>
    requires |seps| == |items|
  {
    if items == [] then [] else seps[0] + items[0] + Chain(seps[1..], items[1..])
  }

  /** `i0 s0 i1 s1 ... in`: one or more items with a separator word between
      each two consecutive ones. */
  function Interleave(items: seq<seq<Token>>, seps: seq<seq<Token>>): seq<Token>
    requires |items| >= 1 && |seps| == |items| - 1
  {
    items[0] + Chain(seps, items[1..])
  }

  lemma {:induction false} ChainIntro(sep: Expr, r: Expr, seps: seq<seq<Token>>, items: seq<seq<Token>>)
    requires |seps| == |items| && AllMatch(sep, seps) && AllMatch(r, items)
    ensures Matches(Repeat(Seq(sep, r)), Chain(seps, items))
    decreases |items|
  {
    if items != [] {
      ChainIntro(sep, r, seps[1..], items[1..]);
      SeqIntro(sep, r, seps[0], items[0]);
      RepeatIntro(Seq(sep, r), seps[0] + items[0], Chain(seps[1..], items[1..]));
    }
  }

  lemma {:induction false} ChainElim(sep: Expr, r: Expr, w: seq<Token>)
    returns (seps: seq<seq<Token>>, items: seq<seq<Token>>)
    requires Matches(Repeat(Seq(sep, r)), w)
    ensures |seps| == |items| && AllMatch(sep, seps) && AllMatch(r, items)
    ensures w == Chain(seps, items)
    decreases |w|
  {
    if w == [] {
      seps, items := [], [];
    } else {
      var chunk, rest := RepeatElim(Seq(sep, r), w);
      var s, x := SeqElim(sep, r, chunk);
      var seps', items' := ChainElim(sep, r, rest);
      seps, items := [s] + seps', [x] + items';
      assert seps[1..] == seps' && items[1..] == items';
    }
  }

  /** `seq(r, repeat(seq(sep, r)))` admits exactly the interleavings of one
      or more words of `r` with words of `sep` between them. */
  lemma ListIntro(r: Expr, sep: Expr, items: seq<seq<Token>>, seps: seq<seq<Token>>)
    requires |items| >= 1 && |seps| == |items| - 1
    requires AllMatch(r, items) && AllMatch(sep, seps)
    ensures Matches(Seq(r, Repeat(Seq(sep, r))), Interleave(items, seps))
  {
    ChainIntro(sep, r, seps, items[1..]);
    SeqIntro(r, Repeat(Seq(sep, r)), items[0], Chain(seps, items[1..]));
  }

  lemma ListElim(r: Expr, sep: Expr, w: seq<Token>) returns (items: seq<seq<Token>>, seps: seq<seq<Token>>)
    requires Matches(Seq(r, Repeat(Seq(sep, r))), w)
    ensures |items| >= 1 && |seps| == |items| - 1
    ensures AllMatch(r, items) && AllMatch(sep, seps)
    ensures w == Interleave(items, seps)
  {
    var head, tail := SeqElim(r, Repeat(Seq(sep, r)), w);
    var rest: seq<seq<Token>>;
    seps, rest := ChainElim(sep, r, tail);
    items := [head] + rest;
    assert items[1..] == rest;
  }

  // ---------------------------------------------------------------------
  // Expressions that admit exactly one child

  /** `e` admits exactly the one-child lists whose child is in `ts`. */
  ghost predicate IsUnit(e: Expr, ts: set<Token>)
  {
    forall u :: Matches(e, u) <==> |u| == 1 && u[0] in ts
  }

  lemma LitUnit(s: string)
    ensures IsUnit(Lit(s), {Anon(s)})
  {
  }

  lemma SymUnit(k: string)
    ensures IsUnit(Sym(k), {Named(k)})
  {
  }

  /** `choice('a', 'b')`: either keyword. */
  lemma KeywordUnit(a: string, b: string)
    ensures IsUnit(Choice([Lit(a), Lit(b)]), {Anon(a), Anon(b)})
  {
    forall u | |u| == 1 && u[0] in {Anon(a), Anon(b)} ensures Matches(Choice([Lit(a), Lit(b)]), u) {
      if u[0] == Anon(a) {
        ChoiceIntro([Lit(a), Lit(b)], 0, u);
      } else {
        ChoiceIntro([Lit(a), Lit(b)], 1, u);
      }
    }
  }

  /** A one-child expression followed by `x`. */
  lemma UnitThen(e: Expr, ts: set<Token>, x: Expr, w: seq<Token>)
    requires IsUnit(e, ts)
    ensures Matches(Seq(e, x), w) <==> |w| >= 1 && w[0] in ts && Matches(x, w[1..])
  {
    if Matches(Seq(e, x), w) {
      var u, v := SeqElim(e, x, w);
      assert v == w[1..];
    }
    if |w| >= 1 && w[0] in ts && Matches(x, w[1..]) {
      assert Matches(e, [w[0]]);
      SeqIntro(e, x, [w[0]], w[1..]);
      assert [w[0]] + w[1..] == w;
    }
  }

  /** An optional one-child expression followed by `x`. */
  lemma OptionalThenElim(e: Expr, x: Expr, w: seq<Token>)
    requires Matches(Seq(Optional(e), x), w)
    ensures Matches(x, w) || exists u :: Matches(e, u) && |u| <= |w| && w[..|u|] == u && Matches(x, w[|u|..])
  {
    var u, v := SeqElim(Optional(e), x, w);
    if u == [] {
      assert v == w;
    } else {
      assert w[..|u|] == u && w[|u|..] == v;
    }
  }

  lemma OptionalUnitThen(e: Expr, ts: set<Token>, x: Expr, w: seq<Token>)
    requires IsUnit(e, ts)
    ensures Matches(Seq(Optional(e), x), w) <==>
      Matches(x, w) || (|w| >= 1 && w[0] in ts && Matches(x, w[1..]))
  {
    if Matches(Seq(Optional(e), x), w) && !Matches(x, w) {
      OptionalThenElim(e, x, w);
      var u :| Matches(e, u) && |u| <= |w| && w[..|u|] == u && Matches(x, w[|u|..]);
      assert |u| == 1 && u[0] in ts;
    }
    if Matches(x, w) {
      SeqIntro(Optional(e), x, [], w);
      assert [] + w == w;
    } else if |w| >= 1 && w[0] in ts && Matches(x, w[1..]) {
      assert Matches(e, [w[0]]);
      SeqIntro(Optional(e), x, [w[0]], w[1..]);
      assert [w[0]] + w[1..] == w;
    }
  }

  /** A repetition of a one-child expression admits exactly the lists
      whose every child is in `ts`. */
  lemma RepeatUnit(e: Expr, ts: set<Token>, w: seq<Token>)
    requires IsUnit(e, ts)
    ensures Matches(Repeat(e), w) <==> forall i :: 0 <= i < |w| ==> w[i] in ts
  {
    if Matches(Repeat(e), w) {
      RepeatUnitElim(e, ts, w);
    }
    if forall i :: 0 <= i < |w| ==> w[i] in ts {
      RepeatUnitIntro(e, ts, w);
    }
  }

  lemma {:induction false} RepeatUnitElim(e: Expr, ts: set<Token>, w: seq<Token>)
    requires IsUnit(e, ts) && Matches(Repeat(e), w)
    ensures forall i :: 0 <= i < |w| ==> w[i] in ts
    decreases |w|
  {
    if w != [] {
      var u, v := RepeatElim(e, w);
      RepeatUnitElim(e, ts, v);
      assert v == w[1..];
      assert forall i :: 1 <= i < |w| ==> w[i] == v[i - 1];
    }
  }

  lemma {:induction false} RepeatUnitIntro(e: Expr, ts: set<Token>, w: seq<Token>)
    requires IsUnit(e, ts) && forall i :: 0 <= i < |w| ==> w[i] in ts
    ensures Matches(Repeat(e), w)
    decreases |w|
  {
    if w != [] {
      assert forall i :: 0 <= i < |w[1..]| ==> w[1..][i] == w[i + 1];
      RepeatUnitIntro(e, ts, w[1..]);
      assert Matches(e, [w[0]]);
      RepeatIntro(e, [w[0]], w[1..]);
      assert [w[0]] + w[1..] == w;
    }
  }

  lemma SeqOf3(a: Expr, b: Expr, c: Expr)
    ensures SeqOf([a, b, c]) == Seq(a, Seq(b, c))
  {
    assert [b, c][1..] == [c];
    assert SeqOf([b, c]) == Seq(b, c);
    assert [a, b, c][1..] == [b, c];
  }

  lemma SeqOf4(a: Expr, b: Expr, c: Expr, d: Expr)
    ensures SeqOf([a, b, c, d]) == Seq(a, Seq(b, Seq(c, d)))
  {
    assert [a, b, c, d][1..] == [b, c, d];
    SeqOf3(b, c, d);
  }

  /** A two-way choice admits what either alternative admits. */
  lemma Choice2(a: Expr, b: Expr, w: seq<Token>)
    ensures Matches(Choice([a, b]), w) <==> Matches(a, w) || Matches(b, w)
  {
    if Matches(a, w) {
      ChoiceIntro([a, b], 0, w);
    } else if Matches(b, w) {
      ChoiceIntro([a, b], 1, w);
    }
  }

  /** A field label leaves the children unchanged. */
  lemma FieldUnit(f: string, e: Expr, ts: set<Token>)
    requires IsUnit(e, ts)
    ensures IsUnit(Field(f, e), ts)
  {
  }

  /** A literal token followed by `x`. */
  lemma LitThen(l: string, x: Expr, w: seq<Token>)
    ensures Matches(Seq(Lit(l), x), w) <==> |w| >= 1 && w[0] == Anon(l) && Matches(x, w[1..])
  {
    LitUnit(l);
    UnitThen(Lit(l), {Anon(l)}, x, w);
  }

  /** `x` followed by a literal token. */
  lemma ThenLit(x: Expr, r: string, w: seq<Token>)
    ensures Matches(Seq(x, Lit(r)), w) <==> |w| >= 1 && w[|w| - 1] == Anon(r) && Matches(x, w[..|w| - 1])
  {
    if Matches(Seq(x, Lit(r)), w) {
      ThenLitElim(x, r, w);
    }
    if |w| >= 1 && w[|w| - 1] == Anon(r) && Matches(x, w[..|w| - 1]) {
      SeqIntro(x, Lit(r), w[..|w| - 1], [Anon(r)]);
      assert w[..|w| - 1] + [Anon(r)] == w;
    }
  }

  lemma ThenLitElim(x: Expr, r: string, w: seq<Token>)
    requires Matches(Seq(x, Lit(r)), w)
    ensures |w| >= 1 && w[|w| - 1] == Anon(r) && Matches(x, w[..|w| - 1])
  {
    var u, v := SeqElim(x, Lit(r), w);
    assert u == w[..|w| - 1];
  }


  /** `seq(l, x, r)` between two literal tokens: exactly `l`, a list `x`
      admits, and `r`. */
  lemma Bracketed(l: string, x: Expr, r: string, w: seq<Token>)
    ensures Matches(Seq(Lit(l), Seq(x, Lit(r))), w) <==>
      |w| >= 2 && w[0] == Anon(l) && w[|w| - 1] == Anon(r) && Matches(x, w[1..|w| - 1])
  {
    LitThen(l, Seq(x, Lit(r)), w);
    if |w| >= 1 {
      ThenLit(x, r, w[1..]);
      if |w| >= 2 {
        assert w[1..][..|w[1..]| - 1] == w[1..|w| - 1];
      }
    }
  }

  /** `x` followed by a rule reference. */
  lemma ThenSym(x: Expr, k: string, w: seq<Token>)
    ensures Matches(Seq(x, Sym(k)), w) <==> |w| >= 1 && w[|w| - 1] == Named(k) && Matches(x, w[..|w| - 1])
  {
    if Matches(Seq(x, Sym(k)), w) {
      ThenSymElim(x, k, w);
    }
    if |w| >= 1 && w[|w| - 1] == Named(k) && Matches(x, w[..|w| - 1]) {
      SeqIntro(x, Sym(k), w[..|w| - 1], [Named(k)]);
      assert w[..|w| - 1] + [Named(k)] == w;
    }
  }

  lemma ThenSymElim(x: Expr, k: string, w: seq<Token>)
    requires Matches(Seq(x, Sym(k)), w)
    ensures |w| >= 1 && w[|w| - 1] == Named(k) && Matches(x, w[..|w| - 1])
  {
    var u, v := SeqElim(x, Sym(k), w);
    assert u == w[..|w| - 1];
  }


  /** `repeat1(e)` of a one-child expression: one or more children, all in
      `ts`. */
  lemma Repeat1Unit(e: Expr, ts: set<Token>, w: seq<Token>)
    requires IsUnit(e, ts)
    ensures Matches(Repeat1(e), w) <==> |w| >= 1 && forall i :: 0 <= i < |w| ==> w[i] in ts
  {
    UnitThen(e, ts, Repeat(e), w);
    if |w| >= 1 {
      RepeatUnit(e, ts, w[1..]);
      assert forall i :: 1 <= i < |w| ==> w[i] == w[1..][i - 1];
    }
  }

  /** `choice('a', 'b')` followed by `x`. */
  lemma KeywordThen(a: string, b: string, x: Expr, w: seq<Token>)
    ensures Matches(Seq(Choice([Lit(a), Lit(b)]), x), w) <==>
      |w| >= 1 && (w[0] == Anon(a) || w[0] == Anon(b)) && Matches(x, w[1..])
  {
    KeywordUnit(a, b);
    UnitThen(Choice([Lit(a), Lit(b)]), {Anon(a), Anon(b)}, x, w);
  }

  /** A rule reference followed by `x`. */
  lemma SymThen(k: string, x: Expr, w: seq<Token>)
    ensures Matches(Seq(Sym(k), x), w) <==> |w| >= 1 && w[0] == Named(k) && Matches(x, w[1..])
  {
    SymUnit(k);
    UnitThen(Sym(k), {Named(k)}, x, w);
  }

  /** An optional literal token followed by `x`. */
  lemma OptionalLitThen(l: string, x: Expr, w: seq<Token>)
    ensures Matches(Seq(Optional(Lit(l)), x), w) <==>
      Matches(x, w) || (|w| >= 1 && w[0] == Anon(l) && Matches(x, w[1..]))
  {
    LitUnit(l);
    OptionalUnitThen(Lit(l), {Anon(l)}, x, w);
  }

  /** An optional named child followed by `x`. */
  lemma OptionalSymThen(k: string, x: Expr, w: seq<Token>)
    ensures Matches(Seq(Optional(Sym(k)), x), w) <==>
      Matches(x, w) || (|w| >= 1 && w[0] == Named(k) && Matches(x, w[1..]))
  {
    SymUnit(k);
    OptionalUnitThen(Sym(k), {Named(k)}, x, w);
  }

  /** `x` followed by an optional literal token. */
  lemma ThenOptionalLit(x: Expr, r: string, w: seq<Token>)
    ensures Matches(Seq(x, Optional(Lit(r))), w) <==>
      Matches(x, w) || (|w| >= 1 && w[|w| - 1] == Anon(r) && Matches(x, w[..|w| - 1]))
  {
    if Matches(Seq(x, Optional(Lit(r))), w) {
      ThenOptionalLitElim(x, r, w);
    }
    if Matches(x, w) {
      SeqIntro(x, Optional(Lit(r)), w, []);
      assert w + [] == w;
    } else if |w| >= 1 && w[|w| - 1] == Anon(r) && Matches(x, w[..|w| - 1]) {
      SeqIntro(x, Optional(Lit(r)), w[..|w| - 1], [Anon(r)]);
      assert w[..|w| - 1] + [Anon(r)] == w;
    }
  }

  lemma ThenOptionalLitElim(x: Expr, r: string, w: seq<Token>)
    requires Matches(Seq(x, Optional(Lit(r))), w)
    ensures Matches(x, w) || (|w| >= 1 && w[|w| - 1] == Anon(r) && Matches(x, w[..|w| - 1]))
  {
    var u, v := SeqElim(x, Optional(Lit(r)), w);
    if v == [] {
      assert u == w;
    } else {
      assert u == w[..|w| - 1];
    }
  }

  // ---------------------------------------------------------------------
  // Slices of token lists, proved apart from any grammar fact

  lemma Drop2(w: seq<Token>)
    ensures |w| >= 2 ==> w[1..][1..] == w[2..]
  {
  }

  lemma InnerSlice(w: seq<Token>)
    ensures |w| >= 2 ==> w[1..][..|w[1..]| - 1] == w[1..|w| - 1]
  {
  }
}
