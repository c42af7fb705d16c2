# tree-sitter-objc grammar core, modelled in Dafny

The Objective-C grammar for tree-sitter is one file, `grammar.js`. It
extends the C grammar with `grammar(C, {...})`. It is data: helper functions
build rule trees out of `seq`, `choice`, `repeat`, `optional`, `alias` and
`field`, and the tree-sitter engine compiles them. This project models the
parts of that file that carry logic of their own and proves what they
accept:

- **The rule DSL** (`GrammarExpr`). Rule expressions are a datatype (`Blank`,
  `Lit`, `Sym`, `Directive`, `Seq`, `Choice`, `Repeat`, `Optional`,
  `Alias`, `Field`), and `Matches(e, w)` is a plain context-free relation.
  A word `w` is what one rule derives in one step, with every rule
  reference left as an opaque symbol:
  - an anonymous symbol is the text of a literal token;
  - a named symbol is a reference to another rule, by name.
  So `$.expression` is one opaque symbol. For a visible rule whose
  references all name visible rules, a word is also the child list of the
  rule's node. Hidden, inline and supertype references are kept as single
  symbols here, although the parser splices their children into the
  parent node.
- **The helpers** (`RuleHelpers`, `PreprocIf`): `commaSep`, `commaSep1`,
  `optionalCommaSep`, `optionalCommaSep1`, `preprocessor` and the family
  generator `preprocIf(suffix, content)` with its four uses.
- **The merges with the base grammar** (`GlobalMerge`): the `conflicts`
  filter-and-append, the `inline` and `supertypes` appends, and the
  `original.members` filters of `_non_case_statement` and `_declarator`.
- **Two lexical tokens** (`Lexical`): `number_literal` and `version_number`,
  as regular expressions over characters.
- **Self-contained productions**:
  - `ObjcDeclarations`: `module_import`, `class_declaration`,
    `protocol_reference_list`, `property_implementation`,
    `compatibility_alias_declaration` and `enumerator_list`;
  - `ObjcStatements`: `try_statement`, `catch_clause` and `finally_clause`;
  - `ObjcExpressions`: `dictionary_literal`, `dictionary_pair`,
    `array_literal` and `method_identifier`.

Each production is characterised by an if-and-only-if lemma, and examples
pin down its edges. For most productions the lemma states the language as
a plain predicate on the word. `class_declaration`, `@synthesize` and
`enumerator_list` are built from a sub-rule (the class list, the item list,
the enumerator body). Their lemmas state the language in terms of that
sub-rule's words, and the sub-rule has an if-and-only-if lemma of its own,
so the two compose.

## Definitions

The members that define the rules carry no contract of their own. Their
languages are stated by the lemmas in the table below. Each definition
and the lines it stands for:

- `RuleHelpers.CommaSep` grammar.js:1247-1249, `CommaSep1` 1258-1260,
  `OptionalCommaSep` 1270-1272, `OptionalCommaSep1` 1282-1284,
  `Preprocessor` 1236-1238.
- `PreprocIf.ElseBlock` grammar.js:1181-1186; `IfItems`/`IfRule` 1189-1196,
  `IfdefAlternativeRule`/`IfdefItems`/`IfdefRule` 1198-1204, `ElseRule`
  1206-1209, `ElifItems`/`ElifRule` 1211-1217,
  `ElifdefItems`/`ElifdefRule` 1219-1224; `Families` and the four
  `...Content` constants 356-359.
- `GlobalMerge.DropMembers` grammar.js:140 and 251; `Members` is the
  `members` property that lines 140 and 251 read; `AddedConflicts`
  25-34, `AddedInline` 37-44, `AddedSupertypes` 46-48.
- `Lexical.NumberLiteral` grammar.js:1078-1107 (`Sign` 1085, `Radix` 1086,
  `IntegerPart` 1089-1093, `FractionPart` 1094, `DotDecimal` 1096,
  `ExponentPart` 1098-1104, `SuffixPart` 1105); `VersionNumber` 247.
- `ObjcDeclarations.ModuleImport` grammar.js:350-354, `ClassDeclaration`
  508-513, `ProtocolReferenceList` 563, `CompatibilityAliasDeclaration`
  615-619, `PropertyImplementation` (`Synthesize`, `Dynamic`) 656-663,
  `EnumeratorList` 472-480.
- `ObjcStatements.TryStatement` grammar.js:842-849, `CatchClauseRule`
  851-855, `FinallyClauseRule` 857-860.
- `ObjcExpressions.DictionaryLiteral` grammar.js:1118-1126, `ArrayLiteral`
  1130-1138 (both through `BoxedLiteral`), `DictionaryPair` 1128,
  `MethodIdentifier` 1143-1150.

## Model

| member | source | states |
|---|---|---|
| GrammarExpr.SeqOfIntro | grammar.js:1258-1260 | a word of every item of `seq(...)`, concatenated in order, is a word of the sequence |
| GrammarExpr.SeqOfElim | grammar.js:1258-1260 | every word of `seq(...)` cuts into one word per item, in order |
| GrammarExpr.RepeatAll | grammar.js:1258-1260 | any concatenation of words of `r` is a word of `repeat(r)` |
| GrammarExpr.RepeatParts | grammar.js:1258-1260 | every word of `repeat(r)` is a concatenation of non-empty words of `r` |
| GrammarExpr.ChainIntro | grammar.js:1258-1260 | words of `seq(sep, r)`, chained, form a word of `repeat(seq(sep, r))` |
| GrammarExpr.ChainElim | grammar.js:1258-1260 | every word of `repeat(seq(sep, r))` is such a chain |
| GrammarExpr.SeqOfRefs | grammar.js:1189-1196 | the rules a sequence refers to include those of each item |
| GrammarExpr.RepeatUnit | grammar.js:1258-1260 | a repetition of a one-child rule admits exactly the lists whose children all come from that rule |
| GrammarExpr.Bracketed | grammar.js:563 | `seq(l, x, r)` admits exactly `l`, a word of `x`, then `r` |
| RuleHelpers.PairsPositions | grammar.js:1258-1260 | the recursive `c t c t ...` description equals the positional one (even length, `c` at even positions) |
| RuleHelpers.AlternatesPositions | grammar.js:1258-1260 | `t c t ... t` by recursion equals the positional description (odd length, `t` at even positions) |
| RuleHelpers.CommaSep1Joins | grammar.js:1258-1260 | every non-empty list of items joined by single commas is a word of `commaSep1` |
| RuleHelpers.CommaSep1Splits | grammar.js:1258-1260 | every word of `commaSep1` is a non-empty list of items joined by single commas |
| RuleHelpers.CommaSepAddsEmpty | grammar.js:1247-1249 | `commaSep` adds exactly the empty list to `commaSep1` |
| RuleHelpers.OptionalCommaSepAddsEmpty | grammar.js:1270-1272 | `optionalCommaSep` adds exactly the empty list to `optionalCommaSep1` |
| RuleHelpers.RepeatPairs | grammar.js:1258-1260 | `repeat(seq(s, k))` admits exactly the `s k` pairs |
| RuleHelpers.SymList | grammar.js:1258-1260 | a list of one kind separated by a literal is exactly an alternation: no leading, trailing or doubled separator |
| RuleHelpers.CommaSep1OfSym | grammar.js:1258-1260 | `commaSep1($.k)` is exactly `k , k , ... , k` |
| RuleHelpers.OptionalCommaSep1Joins | grammar.js:1282-1284 | items with nothing or one comma between neighbours form a word of `optionalCommaSep1` |
| RuleHelpers.OptionalCommaSep1Splits | grammar.js:1282-1284 | every word of `optionalCommaSep1` is such a list of items |
| RuleHelpers.OptionalCommaSep1NoTrailingComma | grammar.js:1282-1284 | when no item is empty or ends in a comma, no word of `optionalCommaSep1` ends in a comma |
| RuleHelpers.OptionalCommaSep1Juxtaposes | grammar.js:1282-1284 | `optionalCommaSep1` accepts two items side by side, which `commaSep1` rejects |
| RuleHelpers.PreprocessorChild | grammar.js:1236-1238 | `preprocessor(cmd)` shows up as the single anonymous child `#cmd` |
| RuleHelpers.DirectiveLexemes | grammar.js:1236-1238 | the token accepts `#`, blanks and tabs, then the command, and rejects text without the `#` |
| PreprocIf.Family | grammar.js:1174-1226 | the rules `preprocIf(suffix, content)` returns are named exactly `preproc_if`, `preproc_ifdef`, `preproc_else`, `preproc_elif` and `preproc_elifdef`, each followed by the suffix |
| PreprocIf.FamilyHasFiveRules | grammar.js:1188-1225 | `preprocIf(suffix, content)` defines five distinct rules for every suffix |
| PreprocIf.ElseBlockChildren | grammar.js:1181-1186 | for every suffix, the alternative is a single `preproc_else` or `preproc_elif` child: the aliases hide the suffix |
| PreprocIf.ElseBlockRefersToOwnFamily | grammar.js:1181-1186 | the else block refers to the else and elif rules carrying the family's own suffix |
| PreprocIf.IfdefFallsBackToUnsuffixedElifdef | grammar.js:1198-1204 | a suffixed `#ifdef` may end in the unsuffixed `preproc_elifdef`, which is outside its family |
| PreprocIf.IfAlternativeMatches | grammar.js:1194 | the optional alternative field admits nothing, `preproc_else` or `preproc_elif` |
| PreprocIf.IfRuleAdmits | grammar.js:1189-1196 | `#if`, condition, newline, any content items, an allowed alternative and `#endif` form a word of `preproc_if` |
| PreprocIf.IfRuleSplits | grammar.js:1189-1196 | every word of `preproc_if` has that form |
| PreprocIf.IfdefAlternativeMatches | grammar.js:1202 | the alternative of an `#ifdef` admits nothing, `preproc_else`, `preproc_elif` or the unsuffixed `preproc_elifdef` |
| PreprocIf.IfdefRuleAdmits | grammar.js:1198-1204 | `#ifdef` or `#ifndef`, the macro name, any content items, an allowed alternative and `#endif` form a word of `preproc_ifdef` |
| PreprocIf.IfdefRuleSplits | grammar.js:1198-1204 | every word of `preproc_ifdef` has that form |
| PreprocIf.ElseRuleAdmits | grammar.js:1206-1209 | `#else` followed by any content items is a word of `preproc_else` |
| PreprocIf.ElseRuleSplits | grammar.js:1206-1209 | every word of `preproc_else` is `#else` followed by content items |
| PreprocIf.ElifRuleAdmits | grammar.js:1211-1217 | `#elif`, condition, newline, any content items and an optional `preproc_else` or `preproc_elif` form a word of `preproc_elif`, with no `#endif` |
| PreprocIf.ElifRuleSplits | grammar.js:1211-1217 | every word of `preproc_elif` has that form |
| PreprocIf.ElifdefRuleAdmits | grammar.js:1219-1224 | `#elifdef` or `#elifndef`, the macro name, any content items and an optional `preproc_else` or `preproc_elif` form a word of `preproc_elifdef`, with no `#endif` |
| PreprocIf.ElifdefRuleSplits | grammar.js:1219-1224 | every word of `preproc_elifdef` has that form |
| PreprocIf.EnumeratorIfdefExample | grammar.js:359 | `#ifdef X`, one enumerator with its comma, then `#endif`, is a word of `preproc_ifdef_in_enumerator` |
| PreprocIf.EnumeratorFamilyContent | grammar.js:359 | inside an enumerator list, each enumerator of a conditional block carries its own comma |
| PreprocIf.FamiliesApart | grammar.js:356-359 | families whose suffixes differ in length by 4 or by more than 5 share no rule name |
| PreprocIf.FamiliesDefineTwentyRules | grammar.js:356-359 | the four calls define twenty distinct rules, five per family |
| GlobalMerge.KeptConflicts | grammar.js:22-24 | the filtered conflicts are never more than the base ones, and each is a base conflict other than the dropped pair |
| GlobalMerge.MergeConflicts | grammar.js:22-35 | the merged conflicts are at most ten more than the base ones, and each is a kept base conflict or one of the ten added |
| GlobalMerge.MergeInline | grammar.js:37-44 | the merged `inline` list starts with the base list, is six longer, and holds only base or added names |
| GlobalMerge.MergeSupertypes | grammar.js:46-48 | the merged `supertypes` list starts with the base list, is one longer, and holds only base names or `specifier_qualifier` |
| GlobalMerge.KeptConflictsDistributes | grammar.js:22-24 | the conflicts filter works entry by entry: it distributes over concatenation |
| GlobalMerge.KeptConflictsCounts | grammar.js:22-24 | the filter removes every copy of `[type_qualifier, extension_expression]` and keeps every copy of every other entry |
| GlobalMerge.KeptConflictsSize | grammar.js:22-24 | the filtered list is shorter by exactly the number of copies of the dropped pair |
| GlobalMerge.MergeConflictsMembers | grammar.js:22-35 | the merged list holds exactly the base entries other than the pair, plus the ten new ones; its length is the base length minus the pair's copies plus ten |
| GlobalMerge.DroppedPairAbsent | grammar.js:22-35 | after the merge the pair is absent, whatever the base grammar listed |
| GlobalMerge.FilterIsExact | grammar.js:23 | only that exact ordered pair is dropped: the reversed pair, and every entry whose length is not two, survive the merge |
| GlobalMerge.MergesOnlyAppend | grammar.js:37-48 | `inline` and `supertypes` keep the base list as a prefix and append their six and one names in order |
| GlobalMerge.DropMembersKeeps | grammar.js:140 | the member filter keeps exactly the members whose name is not dropped |
| GlobalMerge.DropMembersDistributes | grammar.js:140 | the member filter distributes over concatenation, so it keeps the order |
| GlobalMerge.SymbolChoice | grammar.js:139-145 | a choice of rule references admits exactly one child of one of those kinds |
| GlobalMerge.KeptSymbol | grammar.js:140 | a reference survives the filter and append exactly when it is not dropped or is appended |
| GlobalMerge.NonCaseStatementChildren | grammar.js:139-145 | merged `_non_case_statement` admits every base statement except the two SEH statements, plus the four added ones |
| GlobalMerge.DeclaratorChildren | grammar.js:250-253 | merged `_declarator` admits every base declarator except `attributed_declarator`, plus `block_pointer_declarator` |
| GlobalMerge.MembersNeedChoice | grammar.js:139-145 | reading `members` fails exactly when the base rule is neither a choice, a sequence nor an optional |
| GlobalMerge.SeqOfMembers | grammar.js:140 | the `members` of a sequence are its items |
| GlobalMerge.OptionalMembers | grammar.js:140 | `optional(x)` is `choice(x, blank())`: its members are `x` and a blank, and the nameless blank survives the filter |
| GlobalMerge.NonCaseStatement | grammar.js:139-145 | the merged rule exists exactly when the base rule has `members`, and it is then a choice with at least the four added alternatives |
| GlobalMerge.Declarator | grammar.js:250-253 | the merged rule exists exactly when the base rule has `members`, and it is then a non-empty choice |
| Lexical.StrLang | grammar.js:1086 | a literal string matches itself and nothing else |
| Lexical.StarChars | grammar.js:1105 | a starred class admits exactly the strings drawn from the class |
| Lexical.DigitPrefix | grammar.js:1082-1083 | the longest prefix made of digits: its length, its digits, and the non-digit after it |
| Lexical.RunsIff | grammar.js:1082-1083 | `d+ (sep d+)*` admits exactly the strings where every separator stands between two digits |
| Lexical.RunsSound | grammar.js:1082-1083 | every word of the digit runs is such a string |
| Lexical.RunsComplete | grammar.js:1082-1083 | every such string is a word of the digit runs |
| Lexical.SignLang | grammar.js:1085 | the optional sign is empty, `-` or `+` |
| Lexical.RadixLang | grammar.js:1086 | the optional radix prefix is empty, `0x` or `0b` |
| Lexical.IntegerLang | grammar.js:1089-1093 | the integer part is decimal runs, `0b` then decimal runs, or `0x` then hex runs |
| Lexical.FractionLang | grammar.js:1094 | the optional fraction is empty, or `.` with optional hex runs |
| Lexical.DotDecimalLang | grammar.js:1096 | the leading-point form is `.` then decimal runs |
| Lexical.ExponentLang | grammar.js:1098-1104 | the optional exponent is a mark from `eEpP`, optionally followed by a signed hex run |
| Lexical.NumberLiteralSplits | grammar.js:1078-1107 | every number literal cuts into sign, radix, integer, fraction, exponent and suffix, each well formed |
| Lexical.NumberLiteralJoins | grammar.js:1078-1107 | every six well-formed parts make a number literal |
| Lexical.NumberLiteralHasDigit | grammar.js:1078-1107 | every number literal contains a decimal digit |
| Lexical.NumberLiteralQuotes | grammar.js:1078-1107 | every `'` in a number literal stands between two hex digits: never first, never last, never doubled |
| Lexical.NumberLiteralAlphabet | grammar.js:1078-1107 | a number literal uses only hex digits, `'`, signs, exponent marks, the suffix letters `iulULfF`, the point and `x` |
| Lexical.HexExample | grammar.js:1078-1107 | `0x1F` is a number literal |
| Lexical.SeparatedExample | grammar.js:1078-1107 | `1'000'000` is a number literal |
| Lexical.FloatExample | grammar.js:1078-1107 | `3.14f` is a number literal |
| Lexical.ExponentExample | grammar.js:1078-1107 | `1e-5` is a number literal |
| Lexical.LeadingPointExample | grammar.js:1078-1107 | `.5` is a number literal |
| Lexical.DoubledRadixQuirk | grammar.js:1086-1092 | `0x0x1F` is accepted: the radix prefix may appear twice |
| Lexical.BinaryDigitQuirk | grammar.js:1091 | `0b9` is accepted: binary literals take any decimal digit |
| Lexical.BareExponentQuirk | grammar.js:1098-1104 | `1e` is accepted: an exponent mark needs no digits |
| Lexical.MisplacedSeparatorsRejected | grammar.js:1082-1083 | `1''0`, `'1` and `1'` are rejected |
| Lexical.LonePointRejected | grammar.js:1088-1097 | a lone `.` is rejected |
| Lexical.ForeignLetterRejected | grammar.js:1105 | `1k` is rejected |
| Lexical.VersionNumberIff | grammar.js:247 | `version_number` admits exactly digit groups separated by single `.` or `_` |
| Lexical.VersionNumberAccepts | grammar.js:247 | `10.15` and `10_15` are version numbers |
| Lexical.VersionNumberRejects | grammar.js:247 | `10..15`, `.1` and `1.` are not |
| ObjcDeclarations.ModuleImportChildren | grammar.js:350-354 | an import is `@import`, a dotted path of identifiers and `;` |
| ObjcDeclarations.ClassItemChildren | grammar.js:511 | a declared class is a name, optionally with type arguments |
| ObjcDeclarations.ClassDeclarationChildren | grammar.js:508-513 | a class declaration is `@`, `class`, the class list and `;` |
| ObjcDeclarations.ClassListExample | grammar.js:511 | `A, B<T>` is a class list |
| ObjcDeclarations.ClassDeclarationExamples | grammar.js:508-513 | `@ class A, B<T>;` is accepted; `@class` as one token is not this rule |
| ObjcDeclarations.ProtocolReferenceListChildren | grammar.js:563 | `<`, identifiers separated by single commas, `>` |
| ObjcDeclarations.SynthesizeItemChildren | grammar.js:658-660 | a synthesized property is a name, optionally `= ivar` |
| ObjcDeclarations.SynthesizeChildren | grammar.js:657-661 | `@synthesize`, the item list and `;` |
| ObjcDeclarations.DynamicNamesChildren | grammar.js:662 | identifiers separated by commas, then `;` |
| ObjcDeclarations.DynamicTailChildren | grammar.js:662 | an optional `(class)` marker before the names |
| ObjcDeclarations.DynamicChildren | grammar.js:662 | `@dynamic`, an optional `(class)`, the names and `;` |
| ObjcDeclarations.PropertyImplementationForms | grammar.js:656-663 | a property implementation is a synthesize or a dynamic statement |
| ObjcDeclarations.ClassMarkerIsOneToken | grammar.js:662 | `(class)` is one token: written as `(`, `class`, `)` it is rejected |
| ObjcDeclarations.AliasNamesChildren | grammar.js:617-618 | the class and alias fields are two identifiers |
| ObjcDeclarations.CompatibilityAliasChildren | grammar.js:615-619 | the declaration is exactly `@compatibility_alias`, two identifiers |
| ObjcDeclarations.CompatibilityAliasHasNoSemicolon | grammar.js:615-619 | a `;` after the second name is not part of the declaration |
| ObjcDeclarations.PlainEnumeratorChildren | grammar.js:475 | an enumerator, optionally with declaration modifiers |
| ObjcDeclarations.ConditionalEnumeratorsChildren | grammar.js:476 | the conditional block shows up as one `preproc_ifdef` child |
| ObjcDeclarations.EnumeratorElementChildren | grammar.js:474-477 | an element is one of those two forms |
| ObjcDeclarations.EnumeratorCloseChildren | grammar.js:478-479 | the list closes with `}` or `, }` |
| ObjcDeclarations.ListThenClose | grammar.js:478-479 | a list followed by the closing part ends in `}`, with at most one comma before it |
| ObjcDeclarations.EnumeratorListChildren | grammar.js:472-480 | `{`, an `optionalCommaSep` of elements, an optional comma, `}` |
| ObjcDeclarations.BodyEndsWithElement | grammar.js:474-477 | a non-empty element list never ends with a comma |
| ObjcDeclarations.EnumeratorListTrailingComma | grammar.js:472-480 | the closing comma is never doubled, and it follows an element unless the list is `{ , }` |
| ObjcDeclarations.EnumeratorListQuirks | grammar.js:472-480 | `{ , }` is accepted, and enumerators need no comma between them |
| ObjcStatements.CatchRunChildren | grammar.js:845 | `repeat1($.catch_clause)` is one or more catch clauses |
| ObjcStatements.HandlersChildren | grammar.js:844-847 | after the body: one or more handlers, all catch clauses but the last, which is a catch or a finally clause |
| ObjcStatements.TryStatementChildren | grammar.js:842-849 | `@try` or `__try`, the body, then such a handler list |
| ObjcStatements.FinallyComesLast | grammar.js:842-849 | a finally clause is always the last child, so it never precedes a catch and there is at most one |
| ObjcStatements.TryStatementExamples | grammar.js:842-849 | catch, catch, finally and a lone finally are accepted; no handler, or finally before catch, is rejected |
| ObjcStatements.CatchParameterTypeChildren | grammar.js:853 | the caught type is `...` or a type name |
| ObjcStatements.OptionalCatchParameterChildren | grammar.js:853 | the parameter is absent, `( ... )` or `( T )` |
| ObjcStatements.CatchTailChildren | grammar.js:853-854 | an optional parameter, then the body |
| ObjcStatements.CatchClauseChildren | grammar.js:851-855 | `@catch` or `__catch`, an optional parameter, the body |
| ObjcStatements.FinallyClauseChildren | grammar.js:857-860 | exactly `@finally` or `__finally`, then the body |
| ObjcExpressions.ElementsChildren | grammar.js:1121-1124 | the inside of a boxed literal is empty, or elements separated by single commas with at most one comma after the last |
| ObjcExpressions.BoxedLiteralChildren | grammar.js:1118-1138 | `@`, the opening bracket, such an element list, the closing bracket |
| ObjcExpressions.DictionaryLiteralChildren | grammar.js:1118-1126 | `@{`, dictionary pairs as above, `}` |
| ObjcExpressions.ArrayLiteralChildren | grammar.js:1130-1138 | `@[`, expressions as above, `]` |
| ObjcExpressions.DictionaryLiteralExamples | grammar.js:1118-1126 | `@{}` and `@{k: v,}` are accepted; `@{,}` and `@{k: v,,}` are not |
| ObjcExpressions.ArrayLiteralExamples | grammar.js:1130-1138 | `@[e, e]` is accepted; `@[e e]` is not |
| ObjcExpressions.DictionaryPairChildren | grammar.js:1128 | a pair is exactly `expression : expression` |
| ObjcExpressions.AfterColonUnfold | grammar.js:1145-1149 | `repeat(':')` before the keywords: empty, or a colon then more, or an identifier and a colon then more |
| ObjcExpressions.AfterColonLanguage | grammar.js:1145-1149 | what may follow the first colon is empty or a selector name |
| ObjcExpressions.ColonRunThenKeywords | grammar.js:1145-1149 | `repeat1(':')` then the keywords is exactly a list that starts with a colon, ends with one, and has an identifier only between colons |
| ObjcExpressions.MethodIdentifierChildren | grammar.js:1143-1150 | `method_identifier` admits exactly the selector names: an optional identifier, then such a colon-led list |
| ObjcExpressions.SelectorNameShape | grammar.js:1143-1150 | selector names are exactly the non-empty lists of identifiers and colons where every identifier is directly followed by a colon |
| ObjcExpressions.MethodIdentifierExamples | grammar.js:1143-1150 | `:`, `name:` and `a::b:` are accepted; `a`, `a b:` and `a:b` are not |

## Left out

- Precedence is not modelled: `prec`, `prec.left`, `prec.right` and `prec.dynamic`, and the engine's conflict resolution. These are rules of the tree-sitter runtime, which is not part of this model. `Matches` is the plain context-free language of each rule.
- `token.immediate` is left out. The `':'` of `method_identifier` and the literals under it are modelled as ordinary tokens, because the model has no whitespace between children.
- Longest-match lexing and the `extras` (comments and blanks) are left out. Tokens are already split.
- The base C grammar is not part of this model. Every rule it defines is an opaque symbol (`Sym`), and so are `expression`, `identifier`, `type_name`, `compound_statement` and `_declaration_modifiers`. The lemmas about the merged `_non_case_statement` and `_declarator` assume the base rules' `members` are rule references.
- Hidden rules (`_preproc_expression`, `_declaration_modifiers`, `_block_item`), inline rules (`interface_declaration`) and supertypes (`expression`) are kept as single opaque references. The parser splices their children into the parent node; that splicing is not modelled, so a word is a one-step derivation, not always a node's final child list.
- `GrammarExpr.Matches`: an `Alias` is modelled for bodies that derive a single child, which is how every alias in the modelled rules is used (a rule reference or a directive token). An alias of a longer body is not modelled.
- `GlobalMerge.Members`: a binary `Seq` stands for one n-ary `seq(...)`, so a `seq` written as the last item of another `seq` is read as part of it. The DSL would keep it as one member.
- Fields are not modelled beyond their bodies: `field(name, r)` admits what `r` admits, and the label itself is not recorded.
- `identifier` and `keyword_identifier` are left out. They depend on the Unicode `XID_Start` and `XID_Continue` tables and on a negative precedence.
- `PreprocIf.IfdefRule`: the reference to the unsuffixed `preproc_elifdef` is modelled as written, not redirected to the family's own rule. `IfdefFallsBackToUnsuffixedElifdef` states the consequence.
- The grammar rules not selected here are left out: `throw_statement`, `synchronized_statement`, methods, interfaces, blocks, generics, attributes, string literals and the rest. Each of them would need the base grammar or the engine's precedence to mean anything.
- Package.swift and the Go and Swift bindings are left out. They are packaging, plus tests that load the compiled parser through foreign code.
- `GrammarExpr.Matches`: a repetition consumes non-empty chunks. This admits the same language as unrestricted repetition and keeps the relation well founded.
