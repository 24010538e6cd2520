/** The translator itself (crates/kynos-openapi/src/pattern.rs:106-463): a walk
    that collects replacements and refuses what the dialects read apart, then a
    sort and a splice. */
module PatternTranslator {
  import opened PatternSyntax
  import opened PatternDialects
  import opened PatternRewrite
  import opened PatternSplice
  import opened PatternMeaning
  import opened PatternAgreement
  import opened Sequences
  import opened Options

  /** Why a pattern is refused, without the prose. */
  datatype Refusal = Unreadable | NotEcma | Backtracking | Uncompilable

  datatype Verdict = Accepted | Refused(refusal: Refusal)

  datatype Translation = Translated(pattern: string) | Untranslatable(refusal: Refusal)

  const IDENTITY_ESCAPES := "^$\\.*+?()[]{}|/"

  // --- Pure checks ------------------------------------------------------

  /** `literal_escape`, by how the literal is spelled. Octal ones are judged by
      `VisitLiteral`. */
  function LiteralEscape(literal: Literal, inClass: bool): Verdict {
    match literal.kind
    case Verbatim =>
      if inClass && literal.c == ']' then Refused(NotEcma)
      else if !inClass && (literal.c == ']' || literal.c == '{' || literal.c == '}') then Refused(NotEcma)
      else Accepted
    case Meta | Superfluous =>
      if literal.c in IDENTITY_ESCAPES || (inClass && literal.c == '-') then Accepted else Refused(NotEcma)
    case HexFixed(X) | HexFixed(UnicodeShort) | HexBrace(UnicodeShort) => Accepted
    case Special(FormFeed) | Special(Tab) | Special(LineFeed) | Special(CarriageReturn) | Special(VerticalTab) =>
      Accepted
    case HexFixed(UnicodeLong) | HexBrace(X) | HexBrace(UnicodeLong) => Refused(NotEcma)
    case Octal | Special(Bell) | Special(Space) => Refused(NotEcma)
  }

  function UnicodeVerdict(property: UnicodeClass, names: Names): Verdict {
    match property.kind
    case Named(name) =>
      if name in names.generalCategory || name in names.binaryProperty then Accepted else Refused(NotEcma)
    case NamedValue(Equal, name, value) =>
      if name == "General_Category" || name == "gc" then
        if value in names.generalCategory then Accepted else Refused(NotEcma)
      else if name == "Script" || name == "sc" || name == "Script_Extensions" || name == "scx" then
        if value in names.script then Accepted else Refused(NotEcma)
      else Refused(NotEcma)
    case OneLetter(_) => Refused(NotEcma)
    case NamedValue(_, _, _) => Refused(NotEcma)
  }

  /** `GROUP_NAME`: `[\p{ID_Start}_]\p{ID_Continue}*` over the whole name. */
  predicate MatchesGroupName(name: string, names: Names) {
    && name != ""
    && (names.idStart(name[0]) || name[0] == '_')
    && forall k :: 1 <= k < |name| ==> names.idContinue(name[k])
  }

  // --- What those checks decide -----------------------------------------

  /** `literal_escape` accepts a literal exactly when ECMA-262 reads its spelling,
      and reads it as the character the engine reads; what it refuses ECMA-262
      does not read at all. */
  lemma {:induction false} LiteralEscapeIsEcma(literal: Literal, rest: string, inClass: bool)
    requires literal.kind != Octal && SpelledLiteral(literal, inClass)
    ensures LiteralEscape(literal, inClass) == Accepted <==> EcmaReads(literal.written, rest, literal.c, inClass)
    ensures LiteralEscape(literal, inClass) != Accepted ==> EcmaCharacter(literal.written, inClass) == None
  {
    NotNulDigit(literal, inClass);
    hide SpelledLiteral, LiteralEscape, EcmaCharacter;
    match literal.kind
    case Verbatim => VerbatimIsEcma(literal, inClass);
    case Meta => EscapeIsEcma(literal, inClass);
    case Superfluous => EscapeIsEcma(literal, inClass);
    case HexFixed(_) => HexIsEcma(literal, inClass);
    case HexBrace(_) => HexIsEcma(literal, inClass);
    case Special(_) => SpecialIsEcma(literal, inClass);
  }

  /** None of these is `\0`, so what follows does not matter. */
  lemma {:induction false} NotNulDigit(literal: Literal, inClass: bool)
    requires literal.kind != Octal && SpelledLiteral(literal, inClass)
    ensures literal.written != "\\0"
  {
  }

  lemma {:induction false} HexIsEcma(literal: Literal, inClass: bool)
    requires (literal.kind.HexFixed? || literal.kind.HexBrace?) && SpelledLiteral(literal, inClass)
    ensures LiteralEscape(literal, inClass) == Accepted ==> EcmaCharacter(literal.written, inClass) == Some(literal.c)
    ensures LiteralEscape(literal, inClass) != Accepted ==> EcmaCharacter(literal.written, inClass) == None
  {
    ScalarOfChar(literal.c);
  }

  lemma {:induction false} SpecialIsEcma(literal: Literal, inClass: bool)
    requires literal.kind.Special? && SpelledLiteral(literal, inClass)
    ensures LiteralEscape(literal, inClass) == Accepted ==> EcmaCharacter(literal.written, inClass) == Some(literal.c)
    ensures LiteralEscape(literal, inClass) != Accepted ==> EcmaCharacter(literal.written, inClass) == None
  {
  }

  lemma {:induction false} VerbatimIsEcma(literal: Literal, inClass: bool)
    requires literal.kind == Verbatim && SpelledLiteral(literal, inClass)
    ensures LiteralEscape(literal, inClass) == Accepted ==> EcmaCharacter(literal.written, inClass) == Some(literal.c)
    ensures LiteralEscape(literal, inClass) != Accepted ==> EcmaCharacter(literal.written, inClass) == None
  {
  }

  lemma {:induction false} EscapeIsEcma(literal: Literal, inClass: bool)
    requires (literal.kind == Meta || literal.kind == Superfluous) && SpelledLiteral(literal, inClass)
    ensures LiteralEscape(literal, inClass) == Accepted ==> EcmaCharacter(literal.written, inClass) == Some(literal.c)
    ensures LiteralEscape(literal, inClass) != Accepted ==> EcmaCharacter(literal.written, inClass) == None
  {
    assert literal.written[1] == literal.c;
    assert literal.c in IDENTITY_ESCAPES <==> SyntaxCharacter(literal.c) || literal.c == '/';
  }

  lemma {:induction false} ScalarOfChar(c: char)
    ensures Scalar(c as int) == Some(c)
  {
  }

  lemma {:induction false} UnicodeVerdictIsEcma(property: UnicodeClass, names: Names)
    ensures UnicodeVerdict(property, names) == Accepted <==> EcmaSpellsProperty(property.kind, names)
    ensures UnicodeVerdict(property, names) in {Accepted, Refused(NotEcma)}
  {
  }

  // --- What a pattern is refused for ------------------------------------

  /** ECMA-262's backreferences, as the engine's parser reads them: octal escapes that
      do not start with a zero. */
  predicate IsBackreference(literal: Literal) {
    literal.kind == Octal && !("\\0" <= literal.written)
  }

  /** The first thing in a tree, in the order it is written, that ECMA-262 does not
      spell, or that only a search with backtracking has. */
  function Fault(ast: Ast, rest: string, names: Names): Option<Refusal> {
    match ast
    case LiteralAst(literal) =>
      if EcmaReads(literal.written, rest, literal.c, false) then None
      else Some(if IsBackreference(literal) then Backtracking else NotEcma)
    case Repetition(op, sub) =>
      if sub.Repetition? || sub.Assertion? then Some(NotEcma) else Fault(sub, PrintOp(op) + rest, names)
    case Group(kind, sub) => if EcmaGroup(kind, names) then Fault(sub, ")" + rest, names) else Some(NotEcma)
    case Concat(asts) => FaultOfAll(asts, rest, names)
    case Alternation(asts) => FaultOfAlternatives(asts, rest, names)
    case _ => if EcmaSpells(ast, rest, names) then None else Some(NotEcma)
  }

  function FaultOfAll(asts: seq<Ast>, rest: string, names: Names): Option<Refusal> {
    if asts == [] then None
    else
      var fault := Fault(asts[0], PrintAll(asts[1..]) + rest, names);
      if fault.Some? then fault else FaultOfAll(asts[1..], rest, names)
  }

  function FaultOfAlternatives(asts: seq<Ast>, rest: string, names: Names): Option<Refusal> {
    if asts == [] then None
    else
      var fault := Fault(asts[0], PrintMore(asts[1..]) + rest, names);
      if fault.Some? then fault else FaultOfAlternatives(asts[1..], rest, names)
  }

  function VerdictOf(fault: Option<Refusal>): Verdict {
    match fault
    case None => Accepted
    case Some(refusal) => Refused(refusal)
  }

  lemma {:induction false} NoFaultIff(ast: Ast, rest: string, names: Names)
    ensures Fault(ast, rest, names) == None <==> EcmaSpells(ast, rest, names)
    decreases ast
  {
    hide EcmaReads, EcmaSpellsItem, EcmaGroup, PrintOp;
    match ast
    case Repetition(op, sub) => NoFaultIff(sub, PrintOp(op) + rest, names);
    case Group(_, sub) => NoFaultIff(sub, ")" + rest, names);
    case Concat(asts) => NoFaultOfAllIff(asts, rest, names);
    case Alternation(asts) => NoFaultOfAlternativesIff(asts, rest, names);
    case _ =>
  }

  lemma {:induction false} NoFaultOfAllIff(asts: seq<Ast>, rest: string, names: Names)
    ensures FaultOfAll(asts, rest, names) == None <==> EcmaSpellsAll(asts, rest, names)
    decreases asts
  {
    hide Fault, EcmaSpells;
    if asts != [] {
      NoFaultIff(asts[0], PrintAll(asts[1..]) + rest, names);
      NoFaultOfAllIff(asts[1..], rest, names);
    }
  }

  lemma {:induction false} NoFaultOfAlternativesIff(asts: seq<Ast>, rest: string, names: Names)
    ensures FaultOfAlternatives(asts, rest, names) == None <==> EcmaSpellsAlternatives(asts, rest, names)
    decreases asts
  {
    hide Fault, EcmaSpells;
    if asts != [] {
      NoFaultIff(asts[0], PrintMore(asts[1..]) + rest, names);
      NoFaultOfAlternativesIff(asts[1..], rest, names);
    }
  }

  /** Behind what is accepted, `\1` is refused for what only a search with backtracking
      has, and `\01` as no pattern of ECMA-262's. */
  lemma {:induction false} BackreferenceIsTold(before: Ast, literal: Literal, names: Names)
    requires literal.kind == Octal && SpelledLiteral(literal, false) && literal.written != "\\0"
    requires EcmaSpells(before, literal.written, names)
    ensures Fault(Concat([before, LiteralAst(literal)]), "", names)
         == Some(if "\\0" <= literal.written then NotEcma else Backtracking)
  {
    var last := LiteralAst(literal);
    OctalIsNul(literal, false);
    NoFaultIff(before, literal.written, names);
    LiteralFault(literal, names);
    hide SpelledLiteral, EcmaReads, EcmaSpells;
    OneIsWritten(last);
    assert [before, last][1..] == [last] && [last][1..] == [];
    assert FaultOfAll([], "", names) == None;
    assert FaultOfAll([last], "", names) == Fault(last, "", names);
    hide Fault;
    assert FaultOfAll([before, last], "", names) == FaultOfAll([last], "", names);
    ConcatFault([before, last], names);
  }

  lemma {:induction false} LiteralFault(literal: Literal, names: Names)
    requires !EcmaReads(literal.written, "", literal.c, false)
    ensures Fault(LiteralAst(literal), "", names) == Some(if IsBackreference(literal) then Backtracking else NotEcma)
  {
  }

  lemma {:induction false} ConcatFault(asts: seq<Ast>, names: Names)
    ensures Fault(Concat(asts), "", names) == FaultOfAll(asts, "", names)
  {
  }

  lemma {:induction false} OneIsWritten(ast: Ast)
    ensures PrintAll([ast]) + "" == Print(ast) && PrintAll([]) + "" == ""
  {
    assert [ast][1..] == [] && Print(ast) + "" == Print(ast);
  }

  // --- The walk ---------------------------------------------------------

  class Translator {
    const source: string
    const names: Names
    var replacements: seq<Replacement>

    constructor (source: string, names: Names)
      ensures this.source == source && this.names == names && replacements == []
    {
      this.source, this.names, replacements := source, names, [];
    }

    /** What follows offset `at` in the pattern. */
    function Rest(at: nat): string
      requires at <= |source|
    {
      source[at..]
    }

    /** `Translator::literal`: of the octal escapes only NUL's passes, and is replaced. */
    method VisitLiteral(literal: Literal, inClass: bool, ghost at: nat) returns (r: Verdict)
      requires Covers(literal.span, at, |literal.written|) && Holds(source, at, literal.written)
      requires SpelledLiteral(literal, inClass)
      modifies this`replacements
      ensures r == Accepted <==> EcmaReads(literal.written, Rest(at + |literal.written|), literal.c, inClass)
      ensures r.Refused? ==>
        r.refusal == if IsBackreference(literal) && !inClass then Backtracking else NotEcma
      ensures r == Accepted ==> replacements == old(replacements) + LiteralReplacements(literal)
    {
      if literal.kind != Octal {
        LiteralEscapeIsEcma(literal, Rest(at + |literal.written|), inClass);
        return LiteralEscape(literal, inClass);
      }
      OctalIsNul(literal, inClass);
      var escape := source[literal.span.start..literal.span.end];
      var after := source[literal.span.end..];
      var digitFollows := after != "" && '0' <= after[0] <= '9';
      if escape == "\\0" && !digitFollows {
        replacements := replacements + [(literal.span, Text(NulConstruct))];
        r := Accepted;
      } else if |escape| >= 2 && escape[..2] == "\\0" {
        r := Refused(NotEcma);
      } else if inClass {
        r := Refused(NotEcma);
      } else {
        r := Refused(Backtracking);
      }
    }

    method VisitPerl(perl: Perl)
      modifies this`replacements
      ensures replacements == old(replacements) + Replacements(PerlAst(perl))
    {
      replacements := replacements + [(perl.span, Text(PerlConstruct(perl.kind, perl.negated)))];
    }

    method VisitAssertion(span: Span, kind: AssertionKind) returns (r: Verdict)
      modifies this`replacements
      ensures r == Accepted <==> kind in {StartLine, EndLine, WordBoundary, NotWordBoundary}
      ensures r.Refused? ==> r.refusal == NotEcma
      ensures r == Accepted ==> replacements == old(replacements) + Replacements(Assertion(span, kind))
    {
      r := Accepted;
      match kind
      case StartLine | EndLine =>
      case WordBoundary => replacements := replacements + [(span, Text(BoundaryConstruct(false)))];
      case NotWordBoundary => replacements := replacements + [(span, Text(BoundaryConstruct(true)))];
      case _ => r := Refused(NotEcma);
    }

    /** A class member, then what it holds. */
    method VisitItem(item: ClassItem, ghost at: nat) returns (r: Verdict)
      requires LaidItem(item, at) && Holds(source, at, PrintItem(item)) && SpelledItem(item)
      modifies this`replacements
      ensures r == Accepted <==> EcmaSpellsItem(item, Rest(at + |PrintItem(item)|), names)
      ensures r.Refused? ==> r.refusal == NotEcma
      ensures r == Accepted ==> replacements == old(replacements) + ItemReplacements(item)
      decreases item
    {
      hide Text, PrintUnicode, PrintPerl, EcmaSpellsProperty, EcmaReads, SpelledLiteral;
      match item
      case NoItem => r := Accepted;
      case LiteralItem(literal) => r := VisitLiteral(literal, true, at);
      case RangeItem(lo, hi) => r := VisitRange(lo, hi, at);
      case AsciiItem(_, _) => r := Refused(NotEcma);
      case UnicodeItem(property) =>
        UnicodeVerdictIsEcma(property, names);
        r := UnicodeVerdict(property, names);
      case PerlItem(perl) =>
        VisitPerl(perl);
        r := Accepted;
      case BracketedItem(_) => r := Refused(NotEcma);
      case UnionItem(items) => r := VisitItems(items, at);
    }

    method VisitRange(lo: Literal, hi: Literal, ghost at: nat) returns (r: Verdict)
      requires Covers(lo.span, at, |lo.written|) && Covers(hi.span, at + |lo.written| + 1, |hi.written|)
      requires Holds(source, at, lo.written + "-" + hi.written)
      requires SpelledLiteral(lo, true) && SpelledLiteral(hi, true)
      modifies this`replacements
      ensures var rest := Rest(at + |lo.written| + 1 + |hi.written|);
        r == Accepted <==>
          EcmaReads(lo.written, "-" + hi.written + rest, lo.c, true) && EcmaReads(hi.written, rest, hi.c, true)
      ensures r.Refused? ==> r.refusal == NotEcma
      ensures r == Accepted ==> replacements == old(replacements) + LiteralReplacements(lo) + LiteralReplacements(hi)
    {
      hide EcmaReads, SpelledLiteral, Covers, Holds, LiteralReplacements;
      ghost var dash := at + |lo.written|;
      HoldsParts(source, at, lo.written + "-", hi.written);
      HoldsParts(source, at, lo.written, "-");
      RestParts(dash, "-", hi.written);
      r := VisitLiteral(lo, true, at);
      if r == Accepted {
        r := VisitLiteral(hi, true, dash + 1);
      }
    }

    /** What follows `a` is `b` and what follows that. */
    lemma {:induction false} RestParts(at: nat, a: string, b: string)
      requires Holds(source, at, a) && Holds(source, at + |a|, b)
      ensures Rest(at) == a + b + Rest(at + |a| + |b|)
      ensures Rest(at + |a|) == b + Rest(at + |a| + |b|)
    {
      assert source[at..] == source[at..at + |a|] + source[at + |a|..at + |a| + |b|] + source[at + |a| + |b|..];
    }

    method VisitItems(items: seq<ClassItem>, ghost at: nat) returns (r: Verdict)
      requires LaidItems(items, at) && Holds(source, at, PrintItems(items))
      requires forall k :: 0 <= k < |items| ==> SpelledItem(items[k])
      modifies this`replacements
      ensures r == Accepted <==> EcmaSpellsItems(items, Rest(at + |PrintItems(items)|), names)
      ensures r.Refused? ==> r.refusal == NotEcma
      ensures r == Accepted ==> replacements == old(replacements) + ItemsReplacements(items)
      decreases items
    {
      hide EcmaSpellsItem, LaidItem, PrintItem, SpelledItem, ItemReplacements;
      if items == [] {
        return Accepted;
      }
      ghost var first, more := PrintItem(items[0]), PrintItems(items[1..]);
      HoldsParts(source, at, first, more);
      RestParts(at, first, more);
      r := VisitItem(items[0], at);
      if r == Accepted {
        r := VisitItems(items[1..], at + |first|);
      }
    }

    method VisitBracketed(bracketed: Bracketed, ghost at: nat) returns (r: Verdict)
      requires LaidBracketed(bracketed, at) && Holds(source, at, PrintBracketed(bracketed))
        && SpelledBracketed(bracketed)
      modifies this`replacements
      ensures r == Accepted <==> EcmaSpells(BracketedAst(bracketed), Rest(at + |PrintBracketed(bracketed)|), names)
      ensures r.Refused? ==> r.refusal == NotEcma
      ensures r == Accepted ==> replacements == old(replacements) + Replacements(BracketedAst(bracketed))
    {
      ghost var open, inner := Opening(bracketed), PrintSet(bracketed.members);
      HoldsParts(source, at, open + inner, "]");
      HoldsParts(source, at, open, inner);
      RestParts(at + |open|, inner, "]");
      match bracketed.members
      case ItemSet(item) => r := VisitItem(item, at + |open|);
      case BinarySet(_, _, _) => r := Refused(NotEcma);
    }

    /** A node before its children: what `visit_pre` alone decides. */
    method VisitPre(ast: Ast, ghost at: nat) returns (r: Verdict)
      requires Laid(ast, at) && Holds(source, at, Print(ast)) && Spelled(ast)
      modifies this`replacements
      ensures r == Accepted <==> SpelledAlone(ast, Rest(at + |Print(ast)|))
      ensures r.Refused? ==>
        r.refusal == if ast.LiteralAst? && IsBackreference(ast.literal) then Backtracking else NotEcma
      ensures r == Accepted ==>
        if IsInner(ast) then replacements == old(replacements)
        else replacements == old(replacements) + Replacements(ast)
    {
      hide EcmaReads, SpelledLiteral, Covers, Holds, Text, LiteralReplacements, EcmaSpellsProperty, UnicodeVerdict;
      match ast
      case Empty | Alternation(_) | Concat(_) | BracketedAst(_) => r := Accepted;
      case Repetition(_, sub) =>
        r := if sub.Repetition? || sub.Assertion? then Refused(NotEcma) else Accepted;
      case Flags(_) => r := Refused(NotEcma);
      case LiteralAst(literal) => r := VisitLiteral(literal, false, at);
      case Dot(span) =>
        replacements := replacements + [(span, Text(DotConstruct))];
        r := Accepted;
      case Assertion(span, kind) => r := VisitAssertion(span, kind);
      case UnicodeAst(property) =>
        UnicodeVerdictIsEcma(property, names);
        r := UnicodeVerdict(property, names);
      case PerlAst(perl) =>
        VisitPerl(perl);
        r := Accepted;
      case Group(kind, _) =>
        match kind {
          case CaptureIndex => r := Accepted;
          case CaptureName(startsWithP, name) =>
            r := if !startsWithP && MatchesGroupName(name, names) then Accepted else Refused(NotEcma);
          case NonCapturing(flags) => r := if flags == [] then Accepted else Refused(NotEcma);
        }
    }

    /** What of a node is ECMA-262's, its children aside. */
    ghost predicate SpelledAlone(ast: Ast, rest: string) {
      if ast.Repetition? then !ast.sub.Repetition? && !ast.sub.Assertion?
      else if ast.Group? then EcmaGroup(ast.kind, names)
      else IsInner(ast) || EcmaSpells(ast, rest, names)
    }

    /** A node that is only gone through: what is replaced lies below it. */
    ghost predicate IsInner(ast: Ast) {
      ast.Repetition? || ast.Group? || ast.Alternation? || ast.Concat? || ast.BracketedAst?
    }

    lemma {:induction false} RepetitionParts(ast: Ast, at: nat)
      requires ast.Repetition? && Holds(source, at, Print(ast))
      ensures Holds(source, at, Print(ast.sub))
      ensures Rest(at + |Print(ast.sub)|) == PrintOp(ast.op) + Rest(at + |Print(ast)|)
    {
      HoldsParts(source, at, Print(ast.sub), PrintOp(ast.op));
      RestParts(at, Print(ast.sub), PrintOp(ast.op));
    }

    lemma {:induction false} GroupParts(ast: Ast, at: nat)
      requires ast.Group? && Holds(source, at, Print(ast))
      ensures Holds(source, at + |GroupOpening(ast.kind)|, Print(ast.sub))
      ensures Rest(at + |GroupOpening(ast.kind)| + |Print(ast.sub)|) == ")" + Rest(at + |Print(ast)|)
    {
      var open := GroupOpening(ast.kind);
      HoldsParts(source, at, open + Print(ast.sub), ")");
      HoldsParts(source, at, open, Print(ast.sub));
      RestParts(at + |open|, Print(ast.sub), ")");
    }

    /** The driver `ast::visit`: a node, then its children in order, up to the
        first refusal. */
    method Visit(ast: Ast, ghost at: nat) returns (r: Verdict)
      requires Laid(ast, at) && Holds(source, at, Print(ast)) && Spelled(ast)
      modifies this`replacements
      ensures r == VerdictOf(Fault(ast, Rest(at + |Print(ast)|), names))
      ensures r == Accepted ==> replacements == old(replacements) + Replacements(ast)
      decreases ast
    {
      hide EcmaReads, Holds, EcmaSpellsItem, EcmaSpellsProperty, Text, Covers, LiteralReplacements, EcmaGroup,
        SpelledBracketed, SpelledOp, PrintOp, LaidBracketed, PrintBracketed, PrintAssertion, PrintPerl, PrintUnicode;
      r := VisitPre(ast, at);
      if r != Accepted || !(ast.Repetition? || ast.Group? || ast.Alternation? || ast.Concat? || ast.BracketedAst?) {
        return;
      }
      match ast
      case BracketedAst(bracketed) => r := VisitBracketed(bracketed, at);
      case Repetition(op, sub) =>
        RepetitionParts(ast, at);
        r := Visit(sub, at);
      case Group(kind, sub) =>
        GroupParts(ast, at);
        r := Visit(sub, at + |GroupOpening(kind)|);
      case Alternation(asts) => r := VisitAlternatives(asts, at);
      case Concat(asts) => r := VisitAll(asts, at);
    }

    method VisitAll(asts: seq<Ast>, ghost at: nat) returns (r: Verdict)
      requires LaidAll(asts, at) && Holds(source, at, PrintAll(asts))
      requires forall k :: 0 <= k < |asts| ==> Spelled(asts[k])
      modifies this`replacements
      ensures r == VerdictOf(FaultOfAll(asts, Rest(at + |PrintAll(asts)|), names))
      ensures r == Accepted ==> replacements == old(replacements) + AllReplacements(asts)
      decreases asts
    {
      hide EcmaSpells, Fault, Laid, Print, Spelled, Replacements;
      if asts == [] {
        return Accepted;
      }
      ghost var first, more := Print(asts[0]), PrintAll(asts[1..]);
      HoldsParts(source, at, first, more);
      RestParts(at, first, more);
      r := Visit(asts[0], at);
      if r == Accepted {
        r := VisitAll(asts[1..], at + |first|);
      }
    }

    method VisitAlternatives(asts: seq<Ast>, ghost at: nat) returns (r: Verdict)
      requires LaidAlternatives(asts, at) && Holds(source, at, PrintAlternatives(asts))
      requires forall k :: 0 <= k < |asts| ==> Spelled(asts[k])
      modifies this`replacements
      ensures r == VerdictOf(FaultOfAlternatives(asts, Rest(at + |PrintAlternatives(asts)|), names))
      ensures r == Accepted ==> replacements == old(replacements) + AllReplacements(asts)
      decreases asts, 1
    {
      hide EcmaSpells, Fault, Laid, Print, Spelled, Replacements;
      if asts == [] {
        return Accepted;
      }
      ghost var first, more := Print(asts[0]), PrintMore(asts[1..]);
      HoldsParts(source, at, first, more);
      RestParts(at, first, more);
      r := Visit(asts[0], at);
      if r == Accepted {
        r := VisitMore(asts[1..], at + |first|);
      }
    }

    method VisitMore(asts: seq<Ast>, ghost at: nat) returns (r: Verdict)
      requires LaidMore(asts, at) && Holds(source, at, PrintMore(asts))
      requires forall k :: 0 <= k < |asts| ==> Spelled(asts[k])
      modifies this`replacements
      ensures r == VerdictOf(FaultOfAlternatives(asts, Rest(at + |PrintMore(asts)|), names))
      ensures r == Accepted ==> replacements == old(replacements) + AllReplacements(asts)
      decreases asts, 0
    {
      hide EcmaSpells, Fault, Laid, Print, Spelled, Replacements;
      if asts == [] {
        return Accepted;
      }
      ghost var first, more := Print(asts[0]), PrintMore(asts[1..]);
      HoldsParts(source, at, "|" + first, more);
      HoldsParts(source, at, "|", first);
      RestParts(at + 1, first, more);
      r := Visit(asts[0], at + 1);
      if r == Accepted {
        r := VisitMore(asts[1..], at + 1 + |first|);
      }
    }
  }

  // --- The sort and the splice ------------------------------------------

  predicate InOrder(replacements: seq<Replacement>) {
    forall i, j :: 0 <= i < j < |replacements| ==> replacements[i].0.start <= replacements[j].0.start
  }

  function Insert(one: Replacement, sorted: seq<Replacement>): seq<Replacement> {
    if sorted == [] || one.0.start <= sorted[0].0.start then [one] + sorted
    else [sorted[0]] + Insert(one, sorted[1..])
  }

  /** A stable sort by the offset a span starts at. */
  function SortByStart(replacements: seq<Replacement>): seq<Replacement> {
    if replacements == [] then [] else Insert(replacements[0], SortByStart(replacements[1..]))
  }

  lemma {:induction false} InsertKeepsAll(one: Replacement, sorted: seq<Replacement>)
    ensures multiset(Insert(one, sorted)) == multiset{one} + multiset(sorted)
  {
    if sorted != [] && one.0.start > sorted[0].0.start {
      InsertKeepsAll(one, sorted[1..]);
      assert sorted == [sorted[0]] + sorted[1..];
    }
  }

  /** `start` is no later than any of them. */
  predicate AllFrom(start: nat, replacements: seq<Replacement>) {
    forall k :: 0 <= k < |replacements| ==> start <= replacements[k].0.start
  }

  lemma {:induction false} OrderedFrom(first: Replacement, more: seq<Replacement>)
    requires InOrder(more) && AllFrom(first.0.start, more)
    ensures InOrder([first] + more)
  {
  }

  lemma {:induction false} InsertKeepsOrder(one: Replacement, sorted: seq<Replacement>)
    requires InOrder(sorted)
    ensures InOrder(Insert(one, sorted))
    ensures forall start: nat :: start <= one.0.start && AllFrom(start, sorted) ==> AllFrom(start, Insert(one, sorted))
  {
    if sorted == [] || one.0.start <= sorted[0].0.start {
      OrderedFrom(one, sorted);
    } else {
      InsertKeepsOrder(one, sorted[1..]);
      assert AllFrom(sorted[0].0.start, sorted[1..]);
      OrderedFrom(sorted[0], Insert(one, sorted[1..]));
    }
  }

  /** `sort_by_key`: in order, and what it was given. */
  lemma {:induction false} SortSorts(replacements: seq<Replacement>)
    ensures InOrder(SortByStart(replacements)) && multiset(SortByStart(replacements)) == multiset(replacements)
  {
    if replacements != [] {
      SortSorts(replacements[1..]);
      InsertKeepsOrder(replacements[0], SortByStart(replacements[1..]));
      InsertKeepsAll(replacements[0], SortByStart(replacements[1..]));
      assert replacements == [replacements[0]] + replacements[1..];
    }
  }

  /** The walk already collects in source order, so the sort moves nothing. */
  lemma {:induction false} SortMovesNothing(replacements: seq<Replacement>, from: nat, to: nat)
    requires Fits(replacements, from, to)
    ensures SortByStart(replacements) == replacements
  {
    if replacements != [] {
      SortMovesNothing(replacements[1..], replacements[0].0.end, to);
    }
  }

  /** The loop that copies what is between two replacements and puts each in its
      place. */
  method Spliced(source: string, replacements: seq<Replacement>) returns (translated: string)
    requires Fits(replacements, 0, |source|)
    ensures translated == Splice(source, replacements, 0, |source|)
  {
    translated := "";
    var copied: nat := 0;
    var k := 0;
    while k < |replacements|
      invariant 0 <= k <= |replacements| && Fits(replacements[k..], copied, |source|)
      invariant translated + Splice(source, replacements[k..], copied, |source|)
        == Splice(source, replacements, 0, |source|)
    {
      var (span, text) := replacements[k];
      assert replacements[k..][0] == replacements[k] && replacements[k..][1..] == replacements[k + 1..];
      FitsOrders(replacements[k + 1..], span.end, |source|);
      Regrouped(translated, source[copied..span.start], text,
        Splice(source, replacements[k + 1..], span.end, |source|));
      translated := translated + source[copied..span.start] + text;
      copied := span.end;
      k := k + 1;
    }
    translated := translated + source[copied..];
  }

  /** `pattern::translated` of a pattern parsed as `parsed`, if it was. It is accepted
      exactly when each part of it is ECMA-262's and the engine compiles the result,
      which is the rewritten tree as it is written. Where the two dialects read the text
      alike, that is exactly when ECMA-262 admits it, and the result finds a match in
      exactly the inputs ECMA-262 finds one in; elsewhere ECMA-262 reads the text as
      something else, or not at all. A pattern is refused for its first fault. */
  method Translate(source: string, parsed: Option<Ast>, names: Names, compiles: string -> bool)
    returns (r: Translation)
    requires parsed.Some? ==> source == Print(parsed.value) && Laid(parsed.value, 0) && Spelled(parsed.value)
    ensures r.Translated? <==>
      && parsed.Some?
      && EcmaSpells(parsed.value, "", names)
      && compiles(Print(Rewrite(parsed.value)))
    ensures parsed == None ==> r == Untranslatable(Unreadable)
    ensures parsed.Some? && Fault(parsed.value, "", names).Some? ==>
      r == Untranslatable(Fault(parsed.value, "", names).value)
    ensures parsed.Some? && Fault(parsed.value, "", names) == None && !compiles(Print(Rewrite(parsed.value))) ==>
      r == Untranslatable(Uncompilable)
    ensures parsed.Some? && ReadAlike(parsed.value) ==>
      (r.Translated? <==> EcmaAdmits(parsed.value, "", names) && compiles(Print(Rewrite(parsed.value))))
    ensures r.Translated? ==>
      && r.pattern == Print(Rewrite(parsed.value)) && Spelled(Rewrite(parsed.value))
      && (EcmaAdmits(parsed.value, "", names) <==> ReadAlike(parsed.value))
    ensures r.Translated? && ReadAlike(parsed.value) ==>
      forall tables: Tables, s: string ::
        EngineFinds(Rewrite(parsed.value), tables, s) <==> EcmaFinds(parsed.value, tables, s)
  {
    hide EcmaSpells, EcmaAdmits, Fault, ReadAlike, Laid, Print, Rewrite, Replacements, Spelled, Splice, Fits,
      EngineFinds,
      EcmaFinds;
    if parsed == None {
      return Untranslatable(Unreadable);
    }
    var ast := parsed.value;
    AdmittedIsSpelled(ast, "", names);
    NoFaultIff(ast, "", names);
    var translator := new Translator(source, names);
    assert Holds(source, 0, Print(ast)) && translator.Rest(|Print(ast)|) == "";
    var verdict := translator.Visit(ast, 0);
    if verdict.Refused? {
      return Untranslatable(verdict.refusal);
    }
    AdmittedIff(ast, "", names);
    assert translator.replacements == Replacements(ast);
    SpliceIsRewrite(ast, 0, source);
    SortMovesNothing(Replacements(ast), 0, |source|);
    var translated := Spliced(source, SortByStart(translator.replacements));
    if !compiles(translated) {
      return Untranslatable(Uncompilable);
    }
    RewriteStaysSpelled(ast, "", names);
    if ReadAlike(ast) {
      forall tables: Tables, s: string
        ensures EngineFinds(Rewrite(ast), tables, s) <==> EcmaFinds(ast, tables, s)
      {
        SearchIsPreserved(ast, names, tables, s);
      }
    }
    r := Translated(translated);
  }

  lemma {:induction false} AdmittedIsSpelled(ast: Ast, rest: string, names: Names)
    ensures EcmaAdmits(ast, rest, names) ==> EcmaSpells(ast, rest, names)
  {
  }
}
