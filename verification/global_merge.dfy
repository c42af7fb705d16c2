/** How grammar.js extends the base C grammar's global declarations: the
    conflicts list is filtered and appended to, the inline and supertypes
    lists are appended to, and two overridden rules keep the base rule's
    alternatives minus some named members. */
module GlobalMerge {
  import opened GrammarExpr

  datatype Option<T> = None | Some(value: T)

  /** A conflict is a tuple of rule names. */
  type Conflict = seq<string>

  /** The filter keeps every entry except the pair (type_qualifier,
      extension_expression), in that order and of exactly that length. */
  predicate IsDroppedConflict(e: Conflict)
  {
    |e| == 2 && e[0] == "type_qualifier" && e[1] == "extension_expression"
  }

  /** `original.filter(...)` on the base grammar's conflicts. */
  function KeptConflicts(original: seq<Conflict>): (kept: seq<Conflict>)
    ensures |kept| <= |original|
    ensures forall e :: e in kept ==> e in original && !IsDroppedConflict(e)
  {
    if original == [] then []
    else (if IsDroppedConflict(original[0]) then [] else [original[0]]) + KeptConflicts(original[1..])
  }

  /** The ten conflicts the grammar adds, in order. */
  const AddedConflicts: seq<Conflict> := [
    ["enum_specifier"],
    ["expression", "generic_specifier"],
    ["_declarator", "type_specifier", "generic_specifier"],
    ["_declarator", "type_specifier", "sized_type_specifier"],
    ["attribute", "expression"],
    ["parameterized_arguments"],
    ["string_literal"],
    ["extension_expression", "range_expression"],
    ["abstract_array_declarator", "array_type_specifier"],
    ["_type_definition_type"]
  ]

  /** The merged conflicts: the kept base conflicts, then the added ones. */
  function MergeConflicts(original: seq<Conflict>): (merged: seq<Conflict>)
    ensures |merged| <= |original| + 10
    ensures forall e :: e in merged ==> (e in original && !IsDroppedConflict(e)) || e in AddedConflicts
  {
    KeptConflicts(original) + AddedConflicts
  }

  const AddedInline: seq<string> := [
    "method_selector", "method_selector_no_list", "keyword_selector",
    "interface_declaration", "typedefed_identifier", "keyword_identifier"
  ]

  function MergeInline(original: seq<string>): (merged: seq<string>)
    ensures original <= merged && |merged| == |original| + 6
    ensures forall n :: n in merged ==> n in original || n in AddedInline
  {
    original + AddedInline
  }

  const AddedSupertypes: seq<string> := ["specifier_qualifier"]

  function MergeSupertypes(original: seq<string>): (merged: seq<string>)
    ensures original <= merged && |merged| == |original| + 1
    ensures forall n :: n in merged ==> n in original || n == "specifier_qualifier"
  {
    original + AddedSupertypes
  }

  // ---------------------------------------------------------------------
  // Filtering the members of a base rule

  /** The `name` property of a rule object: symbols and fields have one,
      other rules do not. */
  function NameOf(m: Expr): Option<string>
  {
    match m
    case Sym(k) => Some(k)
    case Field(f, _) => Some(f)
    case _ => None
  }

  predicate Dropped(m: Expr, names: set<string>)
  {
    NameOf(m).Some? && NameOf(m).value in names
  }

  /** `members.filter(member => member.name` is none of `names`). */
  function DropMembers(members: seq<Expr>, names: set<string>): seq<Expr>
  {
    if members == [] then []
    else (if Dropped(members[0], names) then [] else [members[0]]) + DropMembers(members[1..], names)
  }

  const SehStatements: set<string> := {"seh_try_statement", "seh_leave_statement"}
  const AddedStatements: seq<Expr> :=
    [Sym("try_statement"), Sym("throw_statement"), Sym("synchronized_statement"), Sym("ms_asm_block")]

  /** The items of a binary sequence, read off the right-nested chain that
      SeqOf builds: a `Seq` stands for one n-ary `seq(...)`. */
  function SeqItems(e: Expr): (items: seq<Expr>)
    ensures |items| >= 1 && items[|items| - 1] == SeqLast(e)
  {
    if e.Seq? then [e.first] + SeqItems(e.second) else [e]
  }

  /** The last item of a right-nested chain. */
  function SeqLast(e: Expr): Expr
  {
    if e.Seq? then SeqLast(e.second) else e
  }

  /** The `members` property of a rule object.  A choice has its
      alternatives and a sequence its items; `optional(x)` is built as
      `choice(x, blank())`, so its members are the body and a blank.  No
      other rule has `members`, and filtering them fails: None. */
  function Members(e: Expr): Option<seq<Expr>>
  {
    match e
    case Choice(alts) => Some(alts)
    case Seq(_, _) => Some(SeqItems(e))
    case Optional(r) => Some([r, Blank])
    case _ => None
  }

  /** `_non_case_statement`: the base members without the structured
      exception statements, plus four statements, as one choice. */
  function NonCaseStatement(original: Expr): (r: Option<Expr>)
    ensures r.Some? <==> Members(original).Some?
    ensures r.Some? ==> r.value.Choice? && |r.value.alts| >= 4
  {
    match Members(original)
    case Some(ms) => Some(Choice(DropMembers(ms, SehStatements) + AddedStatements))
    case None => None
  }

  /** `_declarator`: the base members without attributed_declarator, plus
      block_pointer_declarator, as one choice. */
  function Declarator(original: Expr): (r: Option<Expr>)
    ensures r.Some? <==> Members(original).Some?
    ensures r.Some? ==> r.value.Choice? && |r.value.alts| >= 1
  {
    match Members(original)
    case Some(ms) => Some(Choice(DropMembers(ms, {"attributed_declarator"}) + [Sym("block_pointer_declarator")]))
    case None => None
  }

  // ---------------------------------------------------------------------
  // Properties of the conflicts filter

  /** The filter works entry by entry: it distributes over concatenation. */
  lemma {:induction false} KeptConflictsDistributes(a: seq<Conflict>, b: seq<Conflict>)
    ensures KeptConflicts(a + b) == KeptConflicts(a) + KeptConflicts(b)
    decreases |a|
  {
    if a == [] {
      assert a + b == b;
    } else {
      assert (a + b)[1..] == a[1..] + b;
      KeptConflictsDistributes(a[1..], b);
    }
  }

  /** The filter drops every copy of the dropped pair and keeps every copy
      of every other entry. */
  lemma {:induction false} KeptConflictsCounts(original: seq<Conflict>, e: Conflict)
    ensures multiset(KeptConflicts(original))[e] == if IsDroppedConflict(e) then 0 else multiset(original)[e]
    decreases |original|
  {
    if original != [] {
      KeptConflictsCounts(original[1..], e);
      assert original == [original[0]] + original[1..];
    }
  }

  /** The merged conflicts hold every base entry but the dropped pair, the
      ten added entries, and nothing else; the pair is gone. */
  lemma MergeConflictsMembers(original: seq<Conflict>, e: Conflict)
    ensures e in MergeConflicts(original) <==> (e in original && !IsDroppedConflict(e)) || e in AddedConflicts
    ensures |MergeConflicts(original)| == |original| - multiset(original)[["type_qualifier", "extension_expression"]] + 10
  {
    KeptConflictsCounts(original, e);
    assert e in KeptConflicts(original) <==> multiset(KeptConflicts(original))[e] > 0;
    assert e in original <==> multiset(original)[e] > 0;
    KeptConflictsSize(original);
  }

  lemma {:induction false} KeptConflictsSize(original: seq<Conflict>)
    ensures |KeptConflicts(original)| == |original| - multiset(original)[["type_qualifier", "extension_expression"]]
    decreases |original|
  {
    if original != [] {
      KeptConflictsSize(original[1..]);
      assert original == [original[0]] + original[1..];
      assert IsDroppedConflict(original[0]) <==> original[0] == ["type_qualifier", "extension_expression"];
    }
  }

  /** None of the added conflicts is the dropped pair, so after the merge
      the pair is absent whatever the base grammar listed. */
  lemma DroppedPairAbsent(original: seq<Conflict>)
    ensures ["type_qualifier", "extension_expression"] !in MergeConflicts(original)
  {
    MergeConflictsMembers(original, ["type_qualifier", "extension_expression"]);
  }

  /** The filter matches the exact ordered pair only: the reversed pair and
      every entry whose length is not two survive the merge, whatever rules
      it names. */
  lemma FilterIsExact(original: seq<Conflict>)
    ensures ["extension_expression", "type_qualifier"] in original ==>
      ["extension_expression", "type_qualifier"] in MergeConflicts(original)
    ensures forall e :: e in original && |e| != 2 ==> e in MergeConflicts(original)
  {
    MergeConflictsMembers(original, ["extension_expression", "type_qualifier"]);
    forall e | e in original && |e| != 2 ensures e in MergeConflicts(original) {
      MergeConflictsMembers(original, e);
    }
  }

  /** The inline and supertypes merges only append: the base list is kept
      as a prefix and the added names follow in order. */
  lemma MergesOnlyAppend(inline: seq<string>, supertypes: seq<string>)
    ensures |MergeInline(inline)| == |inline| + 6
    ensures MergeInline(inline)[..|inline|] == inline && MergeInline(inline)[|inline|..] == AddedInline
    ensures |MergeSupertypes(supertypes)| == |supertypes| + 1
    ensures MergeSupertypes(supertypes)[..|supertypes|] == supertypes
    ensures MergeSupertypes(supertypes)[|supertypes|] == "specifier_qualifier"
  {
    assert MergeInline(inline)[..|inline|] == inline;
    assert MergeInline(inline)[|inline|..] == AddedInline;
    assert MergeSupertypes(supertypes)[..|supertypes|] == supertypes;
  }

  // ---------------------------------------------------------------------
  // Properties of the member filters

  /** The member filter keeps exactly the members not named in `names`, in
      their original order. */
  lemma {:induction false} DropMembersKeeps(members: seq<Expr>, names: set<string>, m: Expr)
    ensures m in DropMembers(members, names) <==> m in members && !Dropped(m, names)
    decreases |members|
  {
    if members != [] {
      DropMembersKeeps(members[1..], names, m);
      assert members == [members[0]] + members[1..];
    }
  }

  lemma {:induction false} DropMembersDistributes(a: seq<Expr>, b: seq<Expr>, names: set<string>)
    ensures DropMembers(a + b, names) == DropMembers(a, names) + DropMembers(b, names)
    decreases |a|
  {
    if a == [] {
      assert a + b == b;
    } else {
      assert (a + b)[1..] == a[1..] + b;
      DropMembersDistributes(a[1..], b, names);
    }
  }

  /** Every alternative is a plain rule reference. */
  predicate AllSymbols(alts: seq<Expr>)
  {
    forall m :: m in alts ==> m.Sym?
  }

  /** A choice between plain rule references admits exactly one child whose
      kind is one of those rules. */
  lemma SymbolChoice(alts: seq<Expr>, w: seq<Token>)
    requires AllSymbols(alts)
    ensures Matches(Choice(alts), w) <==> |w| == 1 && w[0].Named? && Sym(w[0].kind) in alts
  {
    if |w| == 1 && w[0].Named? && Sym(w[0].kind) in alts {
      var i :| 0 <= i < |alts| && alts[i] == Sym(w[0].kind);
      assert Matches(alts[i], w);
    }
  }

  /** Filtering references and appending references leaves references. */
  lemma FilteredSymbols(members: seq<Expr>, names: set<string>, added: seq<Expr>)
    requires AllSymbols(members) && AllSymbols(added)
    ensures AllSymbols(DropMembers(members, names) + added)
  {
    forall m | m in DropMembers(members, names) + added ensures m.Sym? {
      DropMembersKeeps(members, names, m);
    }
  }

  /** A rule reference survives the filter exactly when its name is not
      one of the dropped names. */
  lemma KeptSymbol(members: seq<Expr>, names: set<string>, added: seq<Expr>, k: string)
    ensures Sym(k) in DropMembers(members, names) + added <==>
      (Sym(k) in members && k !in names) || Sym(k) in added
  {
    DropMembersKeeps(members, names, Sym(k));
  }

  /** Filtering a list of references and appending references gives a
      choice of exactly the kept and the appended kinds. */
  lemma FilteredChoice(ms: seq<Expr>, names: set<string>, added: seq<Expr>, w: seq<Token>)
    requires AllSymbols(ms) && AllSymbols(added)
    ensures Matches(Choice(DropMembers(ms, names) + added), w) <==>
      && |w| == 1 && w[0].Named?
      && ((Sym(w[0].kind) in ms && w[0].kind !in names) || Sym(w[0].kind) in added)
  {
    FilteredSymbols(ms, names, added);
    SymbolChoice(DropMembers(ms, names) + added, w);
    if |w| == 1 && w[0].Named? {
      KeptSymbol(ms, names, added, w[0].kind);
    }
  }

  /** With a base `_non_case_statement` made of rule references, the merged
      rule admits every base statement except the two structured exception
      statements, and the four added ones. */
  lemma NonCaseStatementChildren(original: Expr, w: seq<Token>)
    requires Members(original).Some? && AllSymbols(Members(original).value)
    ensures NonCaseStatement(original).Some?
    ensures Matches(NonCaseStatement(original).value, w) <==>
      && |w| == 1 && w[0].Named?
      && ((Sym(w[0].kind) in Members(original).value && w[0].kind !in SehStatements)
          || w[0].kind in {"try_statement", "throw_statement", "synchronized_statement", "ms_asm_block"})
  {
    var ms := Members(original).value;
    assert NonCaseStatement(original) == Some(Choice(DropMembers(ms, SehStatements) + AddedStatements));
    FilteredChoice(ms, SehStatements, AddedStatements, w);
    if |w| == 1 && w[0].Named? {
      AddedStatementKinds(w[0].kind);
    }
  }

  lemma AddedStatementKinds(k: string)
    ensures Sym(k) in AddedStatements <==>
      k in {"try_statement", "throw_statement", "synchronized_statement", "ms_asm_block"}
  {
  }

  /** With a base `_declarator` made of rule references, the merged rule
      admits every base declarator except attributed_declarator, and the
      block_pointer_declarator. */
  lemma DeclaratorChildren(original: Expr, w: seq<Token>)
    requires Members(original).Some? && AllSymbols(Members(original).value)
    ensures Declarator(original).Some?
    ensures Matches(Declarator(original).value, w) <==>
      && |w| == 1 && w[0].Named?
      && ((Sym(w[0].kind) in Members(original).value && w[0].kind != "attributed_declarator")
          || w[0].kind == "block_pointer_declarator")
  {
    var ms := Members(original).value;
    var names, added := {"attributed_declarator"}, [Sym("block_pointer_declarator")];
    assert Declarator(original) == Some(Choice(DropMembers(ms, names) + added));
    FilteredChoice(ms, names, added, w);
  }

  /** Reading `members` fails exactly when the base rule is neither a
      choice, a sequence nor an optional. */
  lemma MembersNeedChoice(original: Expr)
    ensures NonCaseStatement(original).None? <==> !(original.Choice? || original.Seq? || original.Optional?)
    ensures Declarator(original).None? <==> !(original.Choice? || original.Seq? || original.Optional?)
  {
  }

  /** The members of a sequence built by SeqOf are its items, when the last
      item is not itself a sequence. */
  lemma SeqOfMembers(items: seq<Expr>)
    requires |items| >= 2 && !items[|items| - 1].Seq?
    ensures Members(SeqOf(items)) == Some(items)
  {
    SeqOfItems(items);
  }

  lemma {:induction false} SeqOfItems(items: seq<Expr>)
    requires |items| >= 1 && !items[|items| - 1].Seq?
    ensures SeqItems(SeqOf(items)) == items
    decreases |items|
  {
    if |items| >= 2 {
      assert items[1..][|items[1..]| - 1] == items[|items| - 1];
      SeqOfItems(items[1..]);
      assert items == [items[0]] + items[1..];
    }
  }

  /** The members of `optional(x)` are `x` and a blank; the blank has no
      name, so it always survives the filter. */
  lemma OptionalMembers(x: Expr)
    ensures NonCaseStatement(Optional(x)) ==
      Some(Choice(DropMembers([x], SehStatements) + [Blank] + AddedStatements))
  {
    assert [x, Blank][1..] == [Blank] && [Blank][1..] == [];
    assert DropMembers([Blank], SehStatements) == [Blank];
    assert DropMembers([x, Blank], SehStatements) == DropMembers([x], SehStatements) + [Blank] by {
      assert [x][1..] == [];
    }
  }
}
