/** The lexical rules of grammar.js that are single tokens built from
    character classes: number_literal (a `token(seq(...))` over regular
    expressions) and version_number (digits separated by single `.` or `_`).  A small regular
    expression datatype gives them their sets of lexemes. */
module Lexical {

  /** Regular expressions over characters. */
  datatype Re =
    | Eps
    | Chars(cs: set<char>)
    | Cat(left: Re, right: Re)
    | Alt(a: Re, b: Re)
    | Star(r: Re)

  /** `s` is a lexeme of `r`.  A star consumes non-empty chunks, which leaves
      its language unchanged. */
  ghost predicate InLang(r: Re, s: string)
    decreases r, |s|
  {
    match r
    case Eps => s == []
    case Chars(cs) => |s| == 1 && s[0] in cs
    case Cat(a, b) => exists i :: 0 <= i <= |s| && InLang(a, s[..i]) && InLang(b, s[i..])
    case Alt(a, b) => InLang(a, s) || InLang(b, s)
    case Star(a) => s == [] || exists i :: 1 <= i <= |s| && InLang(a, s[..i]) && InLang(Star(a), s[i..])
  }

  function Opt(r: Re): Re
  {
    Alt(Eps, r)
  }

  function Plus(r: Re): Re
  {
    Cat(r, Star(r))
  }

  /** A literal string. */
  function Str(t: string): Re
  {
    if t == [] then Eps else Cat(Chars({t[0]}), Str(t[1..]))
  }

  predicate AllIn(s: string, cs: set<char>)
  {
    forall i :: 0 <= i < |s| ==> s[i] in cs
  }

  // ---------------------------------------------------------------------
  // Character classes and the tokens of the grammar

  const Dec: set<char> := {'0', '1', '2', '3', '4', '5', '6', '7', '8', '9'}
  const Hex: set<char> := Dec + {'a', 'b', 'c', 'd', 'e', 'f', 'A', 'B', 'C', 'D', 'E', 'F'}
  const Quote: set<char> := {'\''}
  const Signs: set<char> := {'-', '+'}
  const ExponentMarks: set<char> := {'e', 'E', 'p', 'P'}
  const SuffixChars: set<char> := {'i', 'u', 'l', 'U', 'L', 'f', 'F'}
  const VersionSeparators: set<char> := {'.', '_'}

  /** Runs of digits from `d` separated by single characters from `sep`:
      `d+ (sep d+)*`. */
  function Runs(d: set<char>, sep: set<char>): Re
  {
    Cat(Plus(Chars(d)), RunsTail(d, sep))
  }

  function RunsTail(d: set<char>, sep: set<char>): Re
  {
    Star(Cat(Chars(sep), Plus(Chars(d))))
  }

  const HexDigits: Re := Runs(Hex, Quote)
  const DecimalDigits: Re := Runs(Dec, Quote)

  const Sign: Re := Opt(Chars(Signs))
  const Radix: Re := Opt(Alt(Str("0x"), Str("0b")))
  const IntegerPart: Re := Alt(Alt(DecimalDigits, Cat(Str("0b"), DecimalDigits)), Cat(Str("0x"), HexDigits))
  const FractionPart: Re := Opt(Cat(Str("."), Opt(HexDigits)))
  const DotDecimal: Re := Cat(Str("."), DecimalDigits)
  const Mantissa: Re := Alt(Cat(IntegerPart, FractionPart), DotDecimal)
  const SignedHex: Re := Cat(Sign, HexDigits)
  const ExponentPart: Re := Opt(Cat(Chars(ExponentMarks), Opt(SignedHex)))
  const SuffixPart: Re := Star(Chars(SuffixChars))

  /** number_literal: optional sign, optional radix prefix, mantissa,
      optional exponent, any number of suffix letters. */
  const NumberLiteral: Re := Cat(Sign, AfterSign)
  const AfterSign: Re := Cat(Radix, AfterRadix)
  const AfterRadix: Re := Cat(Mantissa, AfterMantissa)
  const AfterMantissa: Re := Cat(ExponentPart, SuffixPart)

  /** version_number: one or more digits, then any number of `.` or `_` followed by one or more digits. */
  const VersionNumber: Re := Runs(Dec, VersionSeparators)

  // ---------------------------------------------------------------------
  // Lexemes as plain predicates

  /** Every character is a digit, or a separator between two digits. */
  predicate DigitRun(s: string, d: set<char>, sep: set<char>)
  {
    && |s| >= 1
    && forall i {:trigger s[i]} :: 0 <= i < |s| ==>
         s[i] in d || (0 < i < |s| - 1 && s[i] in sep && s[i - 1] in d && s[i + 1] in d)
  }

  predicate SignText(s: string)
  {
    s == [] || (|s| == 1 && s[0] in Signs)
  }

  predicate RadixText(s: string)
  {
    s == [] || s == "0x" || s == "0b"
  }

  predicate IntegerText(s: string)
  {
    || DigitRun(s, Dec, Quote)
    || (|s| >= 2 && s[..2] == "0b" && DigitRun(s[2..], Dec, Quote))
    || (|s| >= 2 && s[..2] == "0x" && DigitRun(s[2..], Hex, Quote))
  }

  predicate FractionText(s: string)
  {
    s == [] || (s[0] == '.' && (|s| == 1 || DigitRun(s[1..], Hex, Quote)))
  }

  predicate DotDecimalText(s: string)
  {
    |s| >= 1 && s[0] == '.' && DigitRun(s[1..], Dec, Quote)
  }

  /** The mantissa split into what precedes the point and the rest. */
  predicate MantissaText(integer: string, fraction: string)
  {
    (IntegerText(integer) && FractionText(fraction)) || (integer == [] && DotDecimalText(fraction))
  }

  predicate SignedHexText(s: string)
  {
    DigitRun(s, Hex, Quote) || (|s| >= 1 && s[0] in Signs && DigitRun(s[1..], Hex, Quote))
  }

  predicate ExponentText(s: string)
  {
    s == [] || (s[0] in ExponentMarks && (|s| == 1 || SignedHexText(s[1..])))
  }

  /** A number literal cut into its six parts. */
  datatype NumberParts = NumberParts(
    sign: string, radix: string, integer: string, fraction: string, exponent: string, suffix: string)

  predicate WellFormed(p: NumberParts)
  {
    && SignText(p.sign)
    && RadixText(p.radix)
    && MantissaText(p.integer, p.fraction)
    && ExponentText(p.exponent)
    && AllIn(p.suffix, SuffixChars)
  }

  /** The literal's text: the parts in order. */
  function Text(p: NumberParts): string
  {
    p.sign + (p.radix + ((p.integer + p.fraction) + (p.exponent + p.suffix)))
  }

  /** Every `'` lies strictly inside the text, between two hex digits. */
  predicate QuotesGuarded(s: string)
  {
    forall i {:trigger s[i]} :: 0 <= i < |s| && s[i] == '\'' ==> 0 < i < |s| - 1 && s[i - 1] in Hex && s[i + 1] in Hex
  }

  // ---------------------------------------------------------------------
  // Introduction and elimination rules

  lemma CatIntro(a: Re, b: Re, u: string, v: string)
    requires InLang(a, u) && InLang(b, v)
    ensures InLang(Cat(a, b), u + v)
  {
    assert (u + v)[..|u|] == u;
    assert (u + v)[|u|..] == v;
  }

  lemma CatElim(a: Re, b: Re, s: string) returns (u: string, v: string)
    requires InLang(Cat(a, b), s)
    ensures InLang(a, u) && InLang(b, v) && s == u + v
  {
    var i :| 0 <= i <= |s| && InLang(a, s[..i]) && InLang(b, s[i..]);
    u, v := s[..i], s[i..];
  }

  lemma StarIntro(r: Re, u: string, v: string)
    requires InLang(r, u) && InLang(Star(r), v)
    ensures InLang(Star(r), u + v)
  {
    if u == [] {
      assert u + v == v;
    } else {
      assert (u + v)[..|u|] == u;
      assert (u + v)[|u|..] == v;
    }
  }

  lemma StarElim(r: Re, s: string) returns (u: string, v: string)
    requires InLang(Star(r), s) && s != []
    ensures InLang(r, u) && InLang(Star(r), v) && s == u + v && u != []
  {
    var i :| 1 <= i <= |s| && InLang(r, s[..i]) && InLang(Star(r), s[i..]);
    u, v := s[..i], s[i..];
  }

  /** A class followed by `r`: one character of the class, then a lexeme of `r`. */
  lemma CharThen(cs: set<char>, r: Re, s: string)
    ensures InLang(Cat(Chars(cs), r), s) <==> |s| >= 1 && s[0] in cs && InLang(r, s[1..])
  {
    if InLang(Cat(Chars(cs), r), s) {
      var u, v := CatElim(Chars(cs), r, s);
      assert s[1..] == v;
    }
    if |s| >= 1 && s[0] in cs && InLang(r, s[1..]) {
      CatIntro(Chars(cs), r, [s[0]], s[1..]);
      assert [s[0]] + s[1..] == s;
    }
  }

  /** A literal string matches itself and nothing else. */
  lemma {:induction false} StrLang(t: string, s: string)
    ensures InLang(Str(t), s) <==> s == t
    decreases |t|
  {
    if t != [] {
      CharThen({t[0]}, Str(t[1..]), s);
      if |s| >= 1 {
        StrLang(t[1..], s[1..]);
        if s[0] == t[0] && s[1..] == t[1..] {
          assert s == [s[0]] + s[1..] && t == [t[0]] + t[1..];
        }
      }
    }
  }

  /** A literal string followed by `r`. */
  lemma StrThen(t: string, r: Re, s: string)
    ensures InLang(Cat(Str(t), r), s) <==> |s| >= |t| && s[..|t|] == t && InLang(r, s[|t|..])
  {
    if InLang(Cat(Str(t), r), s) {
      var u, v := CatElim(Str(t), r, s);
      StrLang(t, u);
      assert s[..|t|] == u && s[|t|..] == v;
    }
    if |s| >= |t| && s[..|t|] == t && InLang(r, s[|t|..]) {
      StrLang(t, t);
      CatIntro(Str(t), r, t, s[|t|..]);
      assert t + s[|t|..] == s;
    }
  }

  /** A starred class admits exactly the strings drawn from the class. */
  lemma {:induction false} StarChars(cs: set<char>, s: string)
    ensures InLang(Star(Chars(cs)), s) <==> AllIn(s, cs)
    decreases |s|
  {
    if s != [] {
      StarChars(cs, s[1..]);
      if InLang(Star(Chars(cs)), s) {
        var u, v := StarElim(Chars(cs), s);
        assert v == s[1..];
        assert forall i :: 1 <= i < |s| ==> s[i] == v[i - 1];
      }
      if AllIn(s, cs) {
        assert AllIn(s[1..], cs) by {
          forall i | 0 <= i < |s[1..]| ensures s[1..][i] in cs {
            assert s[1..][i] == s[i + 1];
          }
        }
        StarIntro(Chars(cs), [s[0]], s[1..]);
        assert [s[0]] + s[1..] == s;
      }
    }
  }

  lemma PlusChars(cs: set<char>, s: string)
    ensures InLang(Plus(Chars(cs)), s) <==> |s| >= 1 && AllIn(s, cs)
  {
    CharThen(cs, Star(Chars(cs)), s);
    if |s| >= 1 {
      StarChars(cs, s[1..]);
      if s[0] in cs && AllIn(s[1..], cs) {
        forall i | 1 <= i < |s| ensures s[i] in cs {
          assert s[i] == s[1..][i - 1];
        }
      }
    }
  }

  // ---------------------------------------------------------------------
  // Digit runs

  /** The length of the longest prefix of `s` drawn from `d`. */
  function DigitPrefix(s: string, d: set<char>): (n: nat)
    ensures n <= |s| && AllIn(s[..n], d) && (n < |s| ==> s[n] !in d)
  {
    if s == [] || s[0] !in d then 0
    else
      var n := 1 + DigitPrefix(s[1..], d);
      assert forall i :: 1 <= i < n ==> s[..n][i] == s[1..][..n - 1][i - 1];
      n
  }

  /** A run of digits, one separator, then a digit run, is a digit run. */
  lemma JoinRuns(d: set<char>, sep: set<char>, p: string, c: char, t: string)
    requires |p| >= 1 && AllIn(p, d) && c in sep && DigitRun(t, d, sep)
    ensures DigitRun(p + [c] + t, d, sep)
  {
    var s := p + [c] + t;
    assert t[0] in d;
    forall i | 0 <= i < |s|
      ensures s[i] in d || (0 < i < |s| - 1 && s[i] in sep && s[i - 1] in d && s[i + 1] in d)
    {
      if i < |p| {
        assert s[i] == p[i];
      } else if i == |p| {
        assert s[i - 1] == p[|p| - 1] && s[i] == c && s[i + 1] == t[0];
      } else {
        var j := i - |p| - 1;
        assert s[i] == t[j];
        if t[j] !in d {
          assert s[i - 1] == t[j - 1] && s[i + 1] == t[j + 1];
        }
      }
    }
  }

  lemma {:induction false} RunsSound(d: set<char>, sep: set<char>, s: string)
    requires InLang(Runs(d, sep), s)
    ensures DigitRun(s, d, sep)
    decreases |s|
  {
    var p, t := CatElim(Plus(Chars(d)), RunsTail(d, sep), s);
    PlusChars(d, p);
    if t == [] {
      ConcatEmpty(s, p, t);
    } else {
      var chunk, rest := StarElim(Cat(Chars(sep), Plus(Chars(d))), t);
      var c, q := CatElim(Chars(sep), Plus(Chars(d)), chunk);
      Regroup(s, p, t, chunk, rest, c, q);
      CatIntro(Plus(Chars(d)), RunsTail(d, sep), q, rest);
      RunsSound(d, sep, q + rest);
      JoinRuns(d, sep, p, c[0], q + rest);
    }
  }

  lemma ConcatEmpty(s: string, p: string, t: string)
    requires s == p + t && t == []
    ensures s == p
  {
  }

  lemma Regroup(s: string, p: string, t: string, chunk: string, rest: string, c: string, q: string)
    requires s == p + t && t == chunk + rest && chunk == c + q && |c| == 1
    ensures s == p + [c[0]] + (q + rest)
  {
  }

  /** The digit run after the first separator of a digit run. */
  lemma RunAfterSeparator(d: set<char>, sep: set<char>, s: string, i: nat)
    requires DigitRun(s, d, sep) && i < |s| && s[i] !in d
    ensures i + 1 < |s| && s[i] in sep && DigitRun(s[i + 1..], d, sep)
  {
    var t := s[i + 1..];
    forall j | 0 <= j < |t|
      ensures t[j] in d || (0 < j < |t| - 1 && t[j] in sep && t[j - 1] in d && t[j + 1] in d)
    {
      assert t[j] == s[i + 1 + j];
      if j > 0 && t[j] !in d {
        assert t[j - 1] == s[i + j] && t[j + 1] == s[i + 2 + j];
      }
    }
  }

  /** A non-empty string of digits is a digit run. */
  lemma RunsOfDigits(d: set<char>, sep: set<char>, s: string)
    requires |s| >= 1 && AllIn(s, d)
    ensures InLang(Runs(d, sep), s)
  {
    PlusChars(d, s);
    CatIntro(Plus(Chars(d)), RunsTail(d, sep), s, []);
    assert s + [] == s;
  }

  /** Digits, one separator, then a lexeme of the runs, make a lexeme. */
  lemma RunsPrepend(d: set<char>, sep: set<char>, p: string, c: char, t: string)
    requires |p| >= 1 && AllIn(p, d) && c in sep && InLang(Runs(d, sep), t)
    ensures InLang(Runs(d, sep), p + [c] + t)
  {
    var q, rest := CatElim(Plus(Chars(d)), RunsTail(d, sep), t);
    CatIntro(Chars(sep), Plus(Chars(d)), [c], q);
    StarIntro(Cat(Chars(sep), Plus(Chars(d))), [c] + q, rest);
    PlusChars(d, p);
    CatIntro(Plus(Chars(d)), RunsTail(d, sep), p, [c] + q + rest);
    assert p + [c] + t == p + ([c] + q + rest);
  }

  lemma {:induction false} RunsComplete(d: set<char>, sep: set<char>, s: string)
    requires DigitRun(s, d, sep)
    ensures InLang(Runs(d, sep), s)
    decreases |s|
  {
    var i := DigitPrefix(s, d);
    assert s[0] in d;
    if i == |s| {
      assert s[..i] == s;
      RunsOfDigits(d, sep, s);
    } else {
      RunAfterSeparator(d, sep, s, i);
      RunsComplete(d, sep, s[i + 1..]);
      RunsPrepend(d, sep, s[..i], s[i], s[i + 1..]);
      assert s == s[..i] + [s[i]] + s[i + 1..];
    }
  }

  /** `d+ (sep d+)*` admits exactly the digit runs. */
  lemma RunsIff(d: set<char>, sep: set<char>, s: string)
    ensures InLang(Runs(d, sep), s) <==> DigitRun(s, d, sep)
  {
    if InLang(Runs(d, sep), s) {
      RunsSound(d, sep, s);
    }
    if DigitRun(s, d, sep) {
      RunsComplete(d, sep, s);
    }
  }

  // ---------------------------------------------------------------------
  // The parts of a number literal

  lemma SignLang(s: string)
    ensures InLang(Sign, s) <==> SignText(s)
  {
  }

  lemma RadixLang(s: string)
    ensures InLang(Radix, s) <==> RadixText(s)
  {
    StrLang("0x", s);
    StrLang("0b", s);
  }

  lemma IntegerLang(s: string)
    ensures InLang(IntegerPart, s) <==> IntegerText(s)
  {
    RunsIff(Dec, Quote, s);
    StrThen("0b", DecimalDigits, s);
    StrThen("0x", HexDigits, s);
    if |s| >= 2 {
      RunsIff(Dec, Quote, s[2..]);
      RunsIff(Hex, Quote, s[2..]);
    }
  }

  lemma FractionLang(s: string)
    ensures InLang(FractionPart, s) <==> FractionText(s)
  {
    StrThen(".", Opt(HexDigits), s);
    if |s| >= 1 {
      RunsIff(Hex, Quote, s[1..]);
    }
  }

  lemma DotDecimalLang(s: string)
    ensures InLang(DotDecimal, s) <==> DotDecimalText(s)
  {
    StrThen(".", DecimalDigits, s);
    if |s| >= 1 {
      RunsIff(Dec, Quote, s[1..]);
    }
  }

  lemma SignedHexLang(s: string)
    ensures InLang(SignedHex, s) <==> SignedHexText(s)
  {
    RunsIff(Hex, Quote, s);
    if |s| >= 1 {
      RunsIff(Hex, Quote, s[1..]);
    }
    if InLang(SignedHex, s) {
      var u, v := CatElim(Sign, HexDigits, s);
      SignLang(u);
      if u != [] {
        assert s[0] == u[0] && v == s[1..];
      } else {
        assert v == s;
      }
    }
    if DigitRun(s, Hex, Quote) {
      CatIntro(Sign, HexDigits, [], s);
      assert [] + s == s;
    } else if |s| >= 1 && s[0] in Signs && DigitRun(s[1..], Hex, Quote) {
      CatIntro(Sign, HexDigits, [s[0]], s[1..]);
      assert [s[0]] + s[1..] == s;
    }
  }

  lemma ExponentLang(s: string)
    ensures InLang(ExponentPart, s) <==> ExponentText(s)
  {
    CharThen(ExponentMarks, Opt(SignedHex), s);
    if |s| >= 1 {
      SignedHexLang(s[1..]);
    }
  }

  lemma MantissaElim(s: string) returns (k: nat)
    requires InLang(Mantissa, s)
    ensures k <= |s| && MantissaText(s[..k], s[k..])
  {
    if InLang(Cat(IntegerPart, FractionPart), s) {
      var u, v := CatElim(IntegerPart, FractionPart, s);
      IntegerLang(u);
      FractionLang(v);
      k := |u|;
      CutConcat(s, u, v);
    } else {
      CutConcat(s, [], s);
      DotDecimalLang(s);
      k := 0;
    }
  }

  lemma MantissaIntro(integer: string, fraction: string)
    requires MantissaText(integer, fraction)
    ensures InLang(Mantissa, integer + fraction)
  {
    if IntegerText(integer) && FractionText(fraction) {
      IntegerLang(integer);
      FractionLang(fraction);
      CatIntro(IntegerPart, FractionPart, integer, fraction);
    } else {
      DotDecimalLang(fraction);
      assert integer + fraction == fraction;
    }
  }

  /** The first part of a number literal and the rest. */
  lemma SignStep(s: string) returns (a: string, r: string)
    requires InLang(NumberLiteral, s)
    ensures SignText(a) && InLang(AfterSign, r) && s == a + r
  {
    a, r := CatElim(Sign, AfterSign, s);
    SignLang(a);
  }

  lemma RadixStep(s: string) returns (b: string, r: string)
    requires InLang(AfterSign, s)
    ensures RadixText(b) && InLang(AfterRadix, r) && s == b + r
  {
    b, r := CatElim(Radix, AfterRadix, s);
    RadixLang(b);
  }

  lemma MantissaStep(s: string) returns (i: string, f: string, r: string)
    requires InLang(AfterRadix, s)
    ensures MantissaText(i, f) && InLang(AfterMantissa, r) && s == i + f + r
  {
    var m;
    m, r := CatElim(Mantissa, AfterMantissa, s);
    var k := MantissaElim(m);
    i, f := m[..k], m[k..];
    CutConcat(m, i, f);
  }

  /** Cutting a string where one of its halves ends. */
  lemma CutConcat(s: string, u: string, v: string)
    requires s == u + v || (|u| <= |s| && u == s[..|u|] && v == s[|u|..])
    ensures s == u + v && s[..|u|] == u && s[|u|..] == v
  {
  }

  lemma ExponentStep(s: string) returns (e: string, x: string)
    requires InLang(AfterMantissa, s)
    ensures ExponentText(e) && AllIn(x, SuffixChars) && s == e + x
  {
    e, x := CatElim(ExponentPart, SuffixPart, s);
    ExponentLang(e);
    StarChars(SuffixChars, x);
  }

  /** Every number literal cuts into six well-formed parts. */
  lemma NumberLiteralSplits(s: string) returns (p: NumberParts)
    requires InLang(NumberLiteral, s)
    ensures WellFormed(p) && Text(p) == s
  {
    var a, r1 := SignStep(s);
    var b, r2 := RadixStep(r1);
    var i, f, r3 := MantissaStep(r2);
    var e, x := ExponentStep(r3);
    p := NumberParts(a, b, i, f, e, x);
  }

  lemma AfterMantissaIntro(e: string, x: string)
    requires ExponentText(e) && AllIn(x, SuffixChars)
    ensures InLang(AfterMantissa, e + x)
  {
    ExponentLang(e);
    StarChars(SuffixChars, x);
    CatIntro(ExponentPart, SuffixPart, e, x);
  }

  lemma AfterRadixIntro(i: string, f: string, r: string)
    requires MantissaText(i, f) && InLang(AfterMantissa, r)
    ensures InLang(AfterRadix, i + f + r)
  {
    MantissaIntro(i, f);
    CatIntro(Mantissa, AfterMantissa, i + f, r);
  }

  lemma AfterSignIntro(b: string, r: string)
    requires RadixText(b) && InLang(AfterRadix, r)
    ensures InLang(AfterSign, b + r)
  {
    RadixLang(b);
    CatIntro(Radix, AfterRadix, b, r);
  }

  lemma NumberLiteralIntro(a: string, r: string)
    requires SignText(a) && InLang(AfterSign, r)
    ensures InLang(NumberLiteral, a + r)
  {
    SignLang(a);
    CatIntro(Sign, AfterSign, a, r);
  }

  /** Every six well-formed parts make a number literal. */
  lemma NumberLiteralJoins(p: NumberParts)
    requires WellFormed(p)
    ensures InLang(NumberLiteral, Text(p))
  {
    AfterMantissaIntro(p.exponent, p.suffix);
    AfterRadixIntro(p.integer, p.fraction, p.exponent + p.suffix);
    AfterSignIntro(p.radix, p.integer + p.fraction + (p.exponent + p.suffix));
    NumberLiteralIntro(p.sign, p.radix + (p.integer + p.fraction + (p.exponent + p.suffix)));
  }

  // ---------------------------------------------------------------------
  // What every number literal looks like

  predicate HasDecimalDigit(s: string)
  {
    exists i :: 0 <= i < |s| && s[i] in Dec
  }

  lemma MantissaHasDigit(integer: string, fraction: string)
    requires MantissaText(integer, fraction)
    ensures HasDecimalDigit(integer + fraction)
  {
    var m := integer + fraction;
    if IntegerText(integer) && FractionText(fraction) {
      assert integer[0] in Dec by {
        if !DigitRun(integer, Dec, Quote) {
          assert integer[0] == integer[..2][0] == '0';
        }
      }
      assert m[0] == integer[0];
    } else {
      assert fraction[1..][0] in Dec;
      assert m[1] == fraction[1];
    }
  }

  lemma HasDigitWithin(u: string, m: string, v: string)
    requires HasDecimalDigit(m)
    ensures HasDecimalDigit(u + (m + v))
  {
    var i :| 0 <= i < |m| && m[i] in Dec;
    assert (u + (m + v))[|u| + i] == m[i];
  }

  /** Every number literal holds a decimal digit: a lone sign, point or
      exponent mark is not one. */
  lemma NumberLiteralHasDigit(s: string)
    requires InLang(NumberLiteral, s)
    ensures HasDecimalDigit(s)
  {
    var p := NumberLiteralSplits(s);
    MantissaHasDigit(p.integer, p.fraction);
    var rest := p.radix + ((p.integer + p.fraction) + (p.exponent + p.suffix));
    HasDigitWithin(p.radix, p.integer + p.fraction, p.exponent + p.suffix);
    HasDigitWithin(p.sign, rest, []);
    assert rest + [] == rest;
  }

  lemma GuardedConcat(u: string, v: string)
    requires QuotesGuarded(u) && QuotesGuarded(v)
    ensures QuotesGuarded(u + v)
  {
    var s := u + v;
    forall i | 0 <= i < |s| && s[i] == '\''
      ensures 0 < i < |s| - 1 && s[i - 1] in Hex && s[i + 1] in Hex
    {
      if i < |u| {
        assert s[i] == u[i] && s[i - 1] == u[i - 1] && s[i + 1] == u[i + 1];
      } else {
        assert s[i] == v[i - |u|] && s[i - 1] == v[i - |u| - 1] && s[i + 1] == v[i - |u| + 1];
      }
    }
  }

  lemma RunGuarded(d: set<char>, s: string)
    requires d <= Hex && '\'' !in d && DigitRun(s, d, Quote)
    ensures QuotesGuarded(s)
  {
  }

  lemma GuardedAfter(t: string, s: string)
    requires '\'' !in t && QuotesGuarded(s)
    ensures QuotesGuarded(t + s)
  {
    assert QuotesGuarded(t) by {
      forall i | 0 <= i < |t| ensures t[i] != '\'' {
        assert t[i] in t;
      }
    }
    GuardedConcat(t, s);
  }

  lemma IntegerGuarded(i: string)
    requires IntegerText(i)
    ensures QuotesGuarded(i)
  {
    if !DigitRun(i, Dec, Quote) {
      if DigitRun(i[2..], Dec, Quote) {
        RunGuarded(Dec, i[2..]);
      } else {
        RunGuarded(Hex, i[2..]);
      }
      GuardedAfter(i[..2], i[2..]);
      assert i == i[..2] + i[2..];
    }
  }

  lemma FractionGuarded(f: string)
    requires FractionText(f) || DotDecimalText(f)
    ensures QuotesGuarded(f)
  {
    if |f| > 1 {
      if DigitRun(f[1..], Dec, Quote) {
        RunGuarded(Dec, f[1..]);
      } else {
        RunGuarded(Hex, f[1..]);
      }
      GuardedAfter([f[0]], f[1..]);
      assert f == [f[0]] + f[1..];
    }
  }

  lemma ExponentGuarded(e: string)
    requires ExponentText(e)
    ensures QuotesGuarded(e)
  {
    if |e| > 1 {
      var t := e[1..];
      assert e == [e[0]] + t;
      if !DigitRun(t, Hex, Quote) {
        assert t == [t[0]] + t[1..];
        GuardedAfter([t[0]], t[1..]);
      }
      GuardedAfter([e[0]], t);
    }
  }

  /** In every number literal, each digit separator `'` stands between two
      hex digits: never first, never last, never doubled. */
  lemma NumberLiteralQuotes(s: string)
    requires InLang(NumberLiteral, s)
    ensures QuotesGuarded(s)
  {
    var p := NumberLiteralSplits(s);
    PartsGuarded(p);
  }

  lemma PartsGuarded(p: NumberParts)
    requires WellFormed(p)
    ensures QuotesGuarded(Text(p))
  {
    var tail := (p.integer + p.fraction) + (p.exponent + p.suffix);
    TailGuarded(p);
    GuardedAfter(p.radix, tail);
    GuardedAfter(p.sign, p.radix + tail);
  }

  lemma TailGuarded(p: NumberParts)
    requires WellFormed(p)
    ensures QuotesGuarded((p.integer + p.fraction) + (p.exponent + p.suffix))
  {
    if p.integer != [] {
      IntegerGuarded(p.integer);
    }
    FractionGuarded(p.fraction);
    ExponentGuarded(p.exponent);
    GuardedConcat(p.integer, p.fraction);
    GuardedAfter(p.suffix, []);
    assert p.suffix + [] == p.suffix;
    GuardedConcat(p.exponent, p.suffix);
    GuardedConcat(p.integer + p.fraction, p.exponent + p.suffix);
  }

  /** Every character a number literal can hold. */
  const NumberChars: set<char> := {
    '0', '1', '2', '3', '4', '5', '6', '7', '8', '9',
    'a', 'b', 'c', 'd', 'e', 'f', 'A', 'B', 'C', 'D', 'E', 'F',
    '\'', '-', '+', 'p', 'P', 'i', 'u', 'l', 'U', 'L', '.', 'x'
  }

  lemma NumberCharsCover()
    ensures Hex <= NumberChars && Quote <= NumberChars && Signs <= NumberChars
    ensures ExponentMarks <= NumberChars && SuffixChars <= NumberChars
    ensures '.' in NumberChars && 'x' in NumberChars
  {
  }

  lemma AllInWider(s: string, a: set<char>, b: set<char>)
    requires AllIn(s, a) && a <= b
    ensures AllIn(s, b)
  {
  }

  lemma RunChars(d: set<char>, s: string)
    requires DigitRun(s, d, Quote) && d <= Hex
    ensures AllIn(s, NumberChars)
  {
    NumberCharsCover();
  }

  lemma AllInConcat(u: string, v: string, cs: set<char>)
    requires AllIn(u, cs) && AllIn(v, cs)
    ensures AllIn(u + v, cs)
  {
    forall i | 0 <= i < |u + v| ensures (u + v)[i] in cs {
      if i >= |u| {
        assert (u + v)[i] == v[i - |u|];
      }
    }
  }

  lemma AllInTail(s: string, k: nat, cs: set<char>)
    requires k <= |s| && AllIn(s[..k], cs) && AllIn(s[k..], cs)
    ensures AllIn(s, cs)
  {
    AllInConcat(s[..k], s[k..], cs);
    assert s[..k] + s[k..] == s;
  }

  lemma IntegerChars(i: string)
    requires IntegerText(i)
    ensures AllIn(i, NumberChars)
  {
    NumberCharsCover();
    if DigitRun(i, Dec, Quote) {
      RunChars(Dec, i);
    } else {
      assert i[..2] == "0b" || i[..2] == "0x";
      if DigitRun(i[2..], Dec, Quote) {
        RunChars(Dec, i[2..]);
      } else {
        RunChars(Hex, i[2..]);
      }
      AllInTail(i, 2, NumberChars);
    }
  }

  lemma FractionChars(f: string)
    requires FractionText(f) || DotDecimalText(f)
    ensures AllIn(f, NumberChars)
  {
    NumberCharsCover();
    if |f| > 1 {
      if DigitRun(f[1..], Dec, Quote) {
        RunChars(Dec, f[1..]);
      } else {
        RunChars(Hex, f[1..]);
      }
      AllInTail(f, 1, NumberChars);
    }
  }

  lemma MantissaChars(i: string, f: string)
    requires MantissaText(i, f)
    ensures AllIn(i + f, NumberChars)
  {
    if i != [] {
      IntegerChars(i);
    }
    FractionChars(f);
    AllInConcat(i, f, NumberChars);
  }

  lemma ExponentChars(e: string)
    requires ExponentText(e)
    ensures AllIn(e, NumberChars)
  {
    NumberCharsCover();
    if |e| > 1 {
      var t := e[1..];
      if DigitRun(t, Hex, Quote) {
        RunChars(Hex, t);
      } else {
        RunChars(Hex, t[1..]);
        AllInTail(t, 1, NumberChars);
      }
      AllInTail(e, 1, NumberChars);
    }
  }

  lemma TailChars(p: NumberParts)
    requires WellFormed(p)
    ensures AllIn((p.integer + p.fraction) + (p.exponent + p.suffix), NumberChars)
  {
    NumberCharsCover();
    MantissaChars(p.integer, p.fraction);
    ExponentChars(p.exponent);
    AllInWider(p.suffix, SuffixChars, NumberChars);
    AllInConcat(p.exponent, p.suffix, NumberChars);
    AllInConcat(p.integer + p.fraction, p.exponent + p.suffix, NumberChars);
  }

  lemma PartsChars(p: NumberParts)
    requires WellFormed(p)
    ensures AllIn(Text(p), NumberChars)
  {
    var tail := (p.integer + p.fraction) + (p.exponent + p.suffix);
    TailChars(p);
    AllInConcat(p.radix, tail, NumberChars);
    AllInConcat(p.sign, p.radix + tail, NumberChars);
  }

  /** A number literal uses only hex digits, `'`, signs, exponent marks,
      suffix letters, the point and `x`. */
  lemma NumberLiteralAlphabet(s: string)
    requires InLang(NumberLiteral, s)
    ensures AllIn(s, NumberChars)
  {
    var p := NumberLiteralSplits(s);
    PartsChars(p);
  }

  // ---------------------------------------------------------------------
  // Examples

  lemma HexExample()
    ensures InLang(NumberLiteral, "0x1F")
  {
    var p := NumberParts("", "", "0x1F", "", "", "");
    assert "0x1F"[2..] == "1F";
    assert DigitRun("1F", Hex, Quote);
    NumberLiteralJoins(p);
    assert Text(p) == "0x1F";
  }

  /** Digit separators between groups of digits. */
  lemma SeparatedExample()
    ensures InLang(NumberLiteral, "1'000'000")
  {
    var s := "1'000'000";
    forall i | 0 <= i < |s|
      ensures s[i] in Dec || (0 < i < |s| - 1 && s[i] in Quote && s[i - 1] in Dec && s[i + 1] in Dec)
    {
      if i == 1 || i == 5 {
      } else {
        assert s[i] == '0' || s[i] == '1';
      }
    }
    var p := NumberParts("", "", s, "", "", "");
    NumberLiteralJoins(p);
    assert Text(p) == s;
  }

  lemma FloatExample()
    ensures InLang(NumberLiteral, "3.14f")
  {
    var p := NumberParts("", "", "3", ".14", "", "f");
    assert ".14"[1..] == "14";
    assert DigitRun("14", Hex, Quote);
    NumberLiteralJoins(p);
    assert Text(p) == "3.14f";
  }

  lemma ExponentExample()
    ensures InLang(NumberLiteral, "1e-5")
  {
    var p := NumberParts("", "", "1", "", "e-5", "");
    assert "e-5"[1..] == "-5" && "-5"[1..] == "5";
    assert SignedHexText("-5");
    NumberLiteralJoins(p);
    assert Text(p) == "1e-5";
  }

  lemma LeadingPointExample()
    ensures InLang(NumberLiteral, ".5")
  {
    var p := NumberParts("", "", "", ".5", "", "");
    assert ".5"[1..] == "5";
    NumberLiteralJoins(p);
    assert Text(p) == ".5";
  }

  /** The token is looser than the language's own literals: the radix
      prefix can appear twice. */
  lemma DoubledRadixQuirk()
    ensures InLang(NumberLiteral, "0x0x1F")
  {
    var p := NumberParts("", "0x", "0x1F", "", "", "");
    assert Text(p) == "0x0x1F";
    assert "0x1F"[2..] == "1F";
    assert DigitRun("1F", Hex, Quote);
    NumberLiteralJoins(p);
  }

  /** Binary literals take any decimal digit. */
  lemma BinaryDigitQuirk()
    ensures InLang(NumberLiteral, "0b9")
  {
    var p := NumberParts("", "", "0b9", "", "", "");
    assert "0b9"[2..] == "9";
    NumberLiteralJoins(p);
    assert Text(p) == "0b9";
  }

  /** An exponent mark needs no digits after it. */
  lemma BareExponentQuirk()
    ensures InLang(NumberLiteral, "1e")
  {
    var p := NumberParts("", "", "1", "", "e", "");
    NumberLiteralJoins(p);
    assert Text(p) == "1e";
  }

  /** Misplaced separators are rejected. */
  lemma MisplacedSeparatorsRejected(s: string)
    requires s == "1''0" || s == "'1" || s == "1'"
    ensures !InLang(NumberLiteral, s)
  {
    if s == "1''0" {
      assert s[1] == '\'' && s[2] !in Hex;
    } else if s == "'1" {
      assert s[0] == '\'';
    } else {
      assert s[1] == '\'';
    }
    if InLang(NumberLiteral, s) {
      NumberLiteralQuotes(s);
    }
  }

  /** A lone point is not a number. */
  lemma LonePointRejected()
    ensures !InLang(NumberLiteral, ".")
  {
    if InLang(NumberLiteral, ".") {
      NumberLiteralHasDigit(".");
    }
  }

  /** A letter outside the alphabet is rejected. */
  lemma ForeignLetterRejected()
    ensures !InLang(NumberLiteral, "1k")
  {
    assert "1k"[1] == 'k';
    if InLang(NumberLiteral, "1k") {
      NumberLiteralAlphabet("1k");
    }
  }

  // ---------------------------------------------------------------------
  // version_number

  /** A version number is a digit run whose separators are `.` and `_`. */
  lemma VersionNumberIff(s: string)
    ensures InLang(VersionNumber, s) <==> DigitRun(s, Dec, VersionSeparators)
  {
    RunsIff(Dec, VersionSeparators, s);
  }

  lemma VersionNumberAccepts(s: string)
    requires s == "10.15" || s == "10_15"
    ensures InLang(VersionNumber, s)
  {
    forall i | 0 <= i < |s|
      ensures s[i] in Dec || (0 < i < |s| - 1 && s[i] in VersionSeparators && s[i - 1] in Dec && s[i + 1] in Dec)
    {
      if i != 2 {
        assert s[i] == '0' || s[i] == '1' || s[i] == '5';
      }
    }
    VersionNumberIff(s);
  }

  /** Doubled, leading and trailing separators are rejected. */
  lemma VersionNumberRejects(s: string)
    requires s == "10..15" || s == ".1" || s == "1."
    ensures !InLang(VersionNumber, s)
  {
    VersionNumberIff(s);
    if s == "10..15" {
      assert s[2] == '.' && s[3] == '.';
    } else if s == ".1" {
      assert s[0] == '.';
    } else {
      assert s[1] == '.';
    }
  }
}
