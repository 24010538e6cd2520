/** The patterns of ECMA-262's own grammar (section 22.2.1 of its 15th edition, with
    Unicode support), but for the lookarounds and backreferences no engine without
    backtracking has. What the translator of crates/kynos-openapi/src/pattern.rs accepts
    is in that grammar, and what is in it and the engine's parser reads it accepts. */
module PatternGrammar {
  import opened PatternSyntax
  import opened PatternDialects
  import opened PatternClasses
  import opened PatternAgreement
  import opened Sequences
  import opened Numerals
  import opened Options

  // --- The grammar ------------------------------------------------------

  datatype Alternative = Alternative(terms: seq<Term>)

  type Disjunction = seq<Alternative>

  /** A `Term`: an assertion, which nothing repeats, or an atom, repeated once at most. */
  datatype Term =
    | AssertionTerm(written: string)
    | PlainTerm(atom: GrammarAtom)
    | RepeatedTerm(atom: GrammarAtom, quantifier: Quantifier, lazy: bool)

  datatype GrammarAtom =
    | AnyAtom
    | CharacterAtom(literal: Literal)
    | PerlAtom(kind: PerlKind, negated: bool)
    | PropertyAtom(negated: bool, name: string)
    | ValueAtom(negated: bool, name: string, value: string)
    | ClassAtom(negated: bool, atoms: seq<Atom>)
    | CapturingAtom(disjunction: Disjunction)
    | NamedAtom(name: string, disjunction: Disjunction)
    | GroupedAtom(disjunction: Disjunction)

  // --- How it is written ------------------------------------------------

  function WriteAtom(atom: GrammarAtom): string {
    match atom
    case AnyAtom => "."
    case CharacterAtom(literal) => literal.written
    case PerlAtom(kind, negated) =>
      (match kind
       case Digit => if negated then "\\D" else "\\d"
       case Word => if negated then "\\W" else "\\w"
       case White => if negated then "\\S" else "\\s")
    case PropertyAtom(negated, name) => (if negated then "\\P" else "\\p") + ("{" + name + "}")
    case ValueAtom(negated, name, value) => (if negated then "\\P" else "\\p") + ("{" + name + "=" + value + "}")
    case ClassAtom(negated, atoms) => (if negated then "[^" else "[") + PrintAtoms(atoms) + "]"
    case CapturingAtom(disjunction) => "(" + WriteDisjunction(disjunction) + ")"
    case NamedAtom(name, disjunction) => "(?<" + name + ">" + WriteDisjunction(disjunction) + ")"
    case GroupedAtom(disjunction) => "(?:" + WriteDisjunction(disjunction) + ")"
  }

  function WriteCount(quantifier: Quantifier, lazy: bool): string {
    (match quantifier
     case ZeroOrMore => "*"
     case OneOrMore => "+"
     case ZeroOrOne => "?"
     case Exactly(n) => "{" + n.digits + "}"
     case AtLeast(n) => "{" + n.digits + ",}"
     case Bounded(n, m) => "{" + n.digits + "," + m.digits + "}")
    + if lazy then "?" else ""
  }

  function WriteTerm(term: Term): string {
    match term
    case AssertionTerm(written) => written
    case PlainTerm(atom) => WriteAtom(atom)
    case RepeatedTerm(atom, quantifier, lazy) => WriteAtom(atom) + WriteCount(quantifier, lazy)
  }

  function WriteTerms(terms: seq<Term>): string {
    if terms == [] then "" else WriteTerm(terms[0]) + WriteTerms(terms[1..])
  }

  function WriteDisjunction(disjunction: Disjunction): string {
    if disjunction == [] then "" else WriteTerms(disjunction[0].terms) + WriteMore(disjunction[1..])
  }

  function WriteMore(disjunction: Disjunction): string {
    if disjunction == [] then "" else "|" + WriteTerms(disjunction[0].terms) + WriteMore(disjunction[1..])
  }

  // --- What it allows ---------------------------------------------------

  /** A numeral and no space around it. */
  predicate IsNumber(figure: Figure) {
    figure.before == "" && figure.after == "" && Numeral(figure.digits)
  }

  /** Its numbers are in order, by an early error. */
  predicate IsCount(quantifier: Quantifier) {
    match quantifier
    case ZeroOrMore | OneOrMore | ZeroOrOne => true
    case Exactly(n) => IsNumber(n)
    case AtLeast(n) => IsNumber(n)
    case Bounded(n, m) => IsNumber(n) && IsNumber(m) && Decimal(n.digits) <= Decimal(m.digits)
  }

  /** A spelling of one character, before `rest`: NUL's takes no digit after it. */
  predicate IsCharacter(written: string, rest: string, inClass: bool) {
    EcmaCharacter(written, inClass).Some? && (written == "\\0" ==> rest == "" || !('0' <= rest[0] <= '9'))
  }

  predicate IsIdentifier(name: string, names: Names) {
    && name != ""
    && (names.idStart(name[0]) || name[0] in "$_")
    && forall k :: 1 <= k < |name| ==> names.idContinue(name[k]) || name[k] in "$\U{200C}\U{200D}"
  }

  /** `UnicodePropertyValueExpression`. */
  predicate IsProperty(kind: UnicodeKind, names: Names) {
    match kind
    case Named(name) => name in names.generalCategory || name in names.binaryProperty
    case NamedValue(Equal, name, value) =>
      || (name in {"General_Category", "gc"} && value in names.generalCategory)
      || (name in {"Script", "sc", "Script_Extensions", "scx"} && value in names.script)
    case _ => false
  }

  /** The atoms of a class: characters, and the escapes that are no single one. */
  predicate AreClassAtoms(atoms: seq<Atom>, rest: string, names: Names) {
    atoms == [] || (
      && (match atoms[0]
          case Character(literal) => IsCharacter(literal.written, PrintAtoms(atoms[1..]) + rest, true)
          case Compound(PerlItem(_)) => true
          case Compound(UnicodeItem(property)) => IsProperty(property.kind, names)
          case Compound(_) => false)
      && AreClassAtoms(atoms[1..], rest, names))
  }

  predicate IsAtom(atom: GrammarAtom, rest: string, names: Names)
    decreases atom, 0
  {
    match atom
    case AnyAtom | PerlAtom(_, _) => true
    case CharacterAtom(literal) => IsCharacter(literal.written, rest, false)
    case PropertyAtom(_, name) => IsProperty(Named(name), names)
    case ValueAtom(_, name, value) => IsProperty(NamedValue(Equal, name, value), names)
    case ClassAtom(negated, atoms) =>
      && AreClassAtoms(atoms, "]" + rest, names) && AllInRange(EcmaMembers(atoms))
      && (!negated && atoms != [] ==> !IsBare(atoms[0], '^'))
    case CapturingAtom(disjunction) => IsDisjunction(disjunction, ")" + rest, names)
    case NamedAtom(name, disjunction) => IsIdentifier(name, names) && IsDisjunction(disjunction, ")" + rest, names)
    case GroupedAtom(disjunction) => IsDisjunction(disjunction, ")" + rest, names)
  }

  predicate IsTerm(term: Term, rest: string, names: Names)
    decreases term, 0
  {
    match term
    case AssertionTerm(written) => written in {"^", "$", "\\b", "\\B"}
    case PlainTerm(atom) => IsAtom(atom, rest, names)
    case RepeatedTerm(atom, quantifier, lazy) =>
      IsAtom(atom, WriteCount(quantifier, lazy) + rest, names) && IsCount(quantifier)
  }

  predicate AreTerms(terms: seq<Term>, rest: string, names: Names)
    decreases terms, 0
  {
    terms == [] || (IsTerm(terms[0], WriteTerms(terms[1..]) + rest, names) && AreTerms(terms[1..], rest, names))
  }

  predicate AreAlternatives(disjunction: Disjunction, rest: string, names: Names)
    decreases disjunction, 0
  {
    disjunction == [] || (
      && AreTerms(disjunction[0].terms, WriteMore(disjunction[1..]) + rest, names)
      && AreAlternatives(disjunction[1..], rest, names))
  }

  /** A `Disjunction`, before `rest`. */
  predicate IsDisjunction(disjunction: Disjunction, rest: string, names: Names)
    decreases disjunction, 1
  {
    disjunction != [] && AreAlternatives(disjunction, rest, names)
  }

  // --- The grammar's tree of an accepted one ----------------------------

  function AtomOf(property: UnicodeClass): GrammarAtom {
    match property.kind
    case OneLetter(letter) => AnyAtom
    case Named(name) => PropertyAtom(property.negated, name)
    case NamedValue(_, name, value) => ValueAtom(property.negated, name, value)
  }

  function GroupOf(kind: GroupKind, disjunction: Disjunction): GrammarAtom {
    match kind
    case CaptureIndex => CapturingAtom(disjunction)
    case CaptureName(_, name) => NamedAtom(name, disjunction)
    case NonCapturing(_) => GroupedAtom(disjunction)
  }

  function RepeatedOf(terms: seq<Term>, op: RepetitionOp): seq<Term> {
    if |terms| == 1 && terms[0].PlainTerm? then [RepeatedTerm(terms[0].atom, op.quantifier, op.lazy)] else []
  }

  function TermsOf(ast: Ast): seq<Term>
    decreases ast, 0
  {
    match ast
    case Empty | Flags(_) | Alternation(_) => []
    case LiteralAst(literal) => [PlainTerm(CharacterAtom(literal))]
    case Dot(_) => [PlainTerm(AnyAtom)]
    case Assertion(_, kind) => [AssertionTerm(PrintAssertion(kind))]
    case UnicodeAst(property) => [PlainTerm(AtomOf(property))]
    case PerlAst(perl) => [PlainTerm(PerlAtom(perl.kind, perl.negated))]
    case BracketedAst(bracketed) =>
      [PlainTerm(ClassAtom(
        bracketed.negated, if bracketed.members.ItemSet? then ItemAtoms(bracketed.members.item) else []))]
    case Repetition(op, sub) => RepeatedOf(TermsOf(sub), op)
    case Group(kind, sub) => [PlainTerm(GroupOf(kind, DisjunctionOf(sub)))]
    case Concat(asts) => AllTermsOf(asts)
  }

  function AllTermsOf(asts: seq<Ast>): seq<Term>
    decreases asts, 0
  {
    if asts == [] then [] else TermsOf(asts[0]) + AllTermsOf(asts[1..])
  }

  function AlternativesOf(asts: seq<Ast>): Disjunction
    decreases asts, 0
  {
    if asts == [] then [] else [Alternative(TermsOf(asts[0]))] + AlternativesOf(asts[1..])
  }

  function DisjunctionOf(ast: Ast): Disjunction
    decreases ast, 1
  {
    if ast.Alternation? && ast.asts != [] then AlternativesOf(ast.asts) else [Alternative(TermsOf(ast))]
  }

  // --- Accepted patterns are in the grammar -----------------------------

  lemma {:induction false} TermsConcat(a: seq<Term>, b: seq<Term>, rest: string, names: Names)
    ensures WriteTerms(a + b) == WriteTerms(a) + WriteTerms(b)
    ensures AreTerms(a + b, rest, names) <==> AreTerms(a, WriteTerms(b) + rest, names) && AreTerms(b, rest, names)
  {
    hide WriteTerm, IsTerm;
    if a == [] {
      assert a + b == b;
    } else {
      TailOfConcat(a, b);
      TermsConcat(a[1..], b, rest, names);
      Associative(WriteTerm(a[0]), WriteTerms(a[1..]), WriteTerms(b));
      Associative(WriteTerms(a[1..]), WriteTerms(b), rest);
    }
  }

  lemma {:induction false} OneTerm(term: Term, rest: string, names: Names)
    ensures WriteTerms([term]) == WriteTerm(term)
    ensures AreTerms([term], rest, names) <==> IsTerm(term, rest, names)
  {
    hide WriteTerm, IsTerm;
    assert [term][1..] == [] && WriteTerm(term) + "" == WriteTerm(term) && "" + rest == rest;
  }

  lemma {:induction false} OneAlternative(terms: seq<Term>, rest: string, names: Names)
    ensures WriteDisjunction([Alternative(terms)]) == WriteTerms(terms)
    ensures IsDisjunction([Alternative(terms)], rest, names) <==> AreTerms(terms, rest, names)
  {
    hide WriteTerms, AreTerms;
    var lone := [Alternative(terms)];
    assert lone[1..] == [] && AreAlternatives(lone[1..], rest, names) && WriteMore(lone[1..]) == "";
    assert WriteTerms(terms) + "" == WriteTerms(terms) && "" + rest == rest;
  }

  lemma {:induction false} PropertyIsWritten(property: UnicodeClass, rest: string, names: Names)
    requires EcmaSpellsProperty(property.kind, names)
    ensures IsProperty(property.kind, names)
    ensures WriteAtom(AtomOf(property)) == PrintUnicode(property) && IsAtom(AtomOf(property), rest, names)
  {
  }

  lemma {:induction false} PerlIsWritten(kind: PerlKind, negated: bool)
    ensures WriteAtom(PerlAtom(kind, negated)) == PrintPerl(kind, negated)
  {
  }

  lemma {:induction false} ClassAtomsConcat(a: seq<Atom>, b: seq<Atom>, rest: string, names: Names)
    ensures AreClassAtoms(a + b, rest, names) <==>
      AreClassAtoms(a, PrintAtoms(b) + rest, names) && AreClassAtoms(b, rest, names)
  {
    hide IsCharacter, IsProperty;
    if a == [] {
      assert a + b == b;
    } else {
      TailOfConcat(a, b);
      ClassAtomsConcat(a[1..], b, rest, names);
      PrintAtomsConcat(a[1..], b);
      Associative(PrintAtoms(a[1..]), PrintAtoms(b), rest);
    }
  }

  lemma {:induction false} HyphenIsCharacter(rest: string)
    ensures IsCharacter("-", rest, true)
  {
  }

  /** The atoms of each member ECMA-262 spells are its class atoms. */
  lemma {:induction false} ItemIsAtoms(item: ClassItem, rest: string, names: Names)
    requires EcmaSpellsItem(item, rest, names)
    ensures AreClassAtoms(ItemAtoms(item), rest, names)
    decreases item
  {
    hide IsCharacter, IsProperty, EcmaReads;
    match item
    case NoItem =>
    case LiteralItem(literal) =>
      LiteralIsCharacter(literal, rest, true);
      OneClassAtom(Character(literal), rest, names);
    case RangeItem(lo, hi) =>
      LiteralIsCharacter(lo, "-" + hi.written + rest, true);
      LiteralIsCharacter(hi, rest, true);
      RangeIsAtoms(lo, hi, rest, names);
    case UnicodeItem(property) =>
      PropertyIsWritten(property, rest, names);
      OneClassAtom(Compound(item), rest, names);
    case PerlItem(_) => OneClassAtom(Compound(item), rest, names);
    case UnionItem(items) => ItemsAreAtoms(items, rest, names);
  }

  lemma {:induction false} LiteralIsCharacter(literal: Literal, rest: string, inClass: bool)
    requires EcmaReads(literal.written, rest, literal.c, inClass)
    ensures IsCharacter(literal.written, rest, inClass)
  {
  }

  lemma {:induction false} OneClassAtom(atom: Atom, rest: string, names: Names)
    ensures AreClassAtoms([atom], rest, names) <==>
      match atom {
        case Character(literal) => IsCharacter(literal.written, rest, true)
        case Compound(PerlItem(_)) => true
        case Compound(UnicodeItem(property)) => IsProperty(property.kind, names)
        case Compound(_) => false
      }
  {
    hide IsCharacter, IsProperty;
    assert [atom][1..] == [] && PrintAtoms([]) + rest == rest;
  }

  lemma {:induction false} RangeIsAtoms(lo: Literal, hi: Literal, rest: string, names: Names)
    requires IsCharacter(lo.written, "-" + hi.written + rest, true) && IsCharacter(hi.written, rest, true)
    ensures AreClassAtoms([Character(lo), Hyphen(), Character(hi)], rest, names)
  {
    hide IsCharacter, IsProperty, AreClassAtoms;
    var first, hyphen, last := [Character(lo)], [Hyphen()], [Character(hi)];
    AtomPrints(Character(hi));
    AtomPrints(Hyphen());
    PrintAtomsConcat(hyphen, last);
    HyphenIsCharacter(hi.written + rest);
    OneClassAtom(Character(hi), rest, names);
    OneClassAtom(Hyphen(), hi.written + rest, names);
    OneClassAtom(Character(lo), "-" + hi.written + rest, names);
    ClassAtomsConcat(hyphen, last, rest, names);
    ClassAtomsConcat(first, hyphen + last, rest, names);
    assert first + (hyphen + last) == [Character(lo), Hyphen(), Character(hi)];
    Associative("-", hi.written, rest);
  }

  lemma {:induction false} ItemsAreAtoms(items: seq<ClassItem>, rest: string, names: Names)
    requires EcmaSpellsItems(items, rest, names)
    ensures AreClassAtoms(Atoms(items), rest, names)
    decreases items
  {
    if items != [] {
      hide AreClassAtoms, EcmaSpellsItem, ItemAtoms;
      ItemIsAtoms(items[0], PrintItems(items[1..]) + rest, names);
      ItemsAreAtoms(items[1..], rest, names);
      AllAtomsPrint(items[1..]);
      ClassAtomsConcat(ItemAtoms(items[0]), Atoms(items[1..]), rest, names);
    }
  }

  lemma {:induction false} ClassIsInGrammar(bracketed: Bracketed, rest: string, names: Names)
    requires SpelledBracketed(bracketed) && EcmaSpells(BracketedAst(bracketed), rest, names)
    requires EcmaReadsTree(BracketedAst(bracketed))
    ensures var atom := ClassAtom(bracketed.negated, ItemAtoms(bracketed.members.item));
      WriteAtom(atom) == PrintBracketed(bracketed) && IsAtom(atom, rest, names)
  {
    var item := bracketed.members.item;
    hide AreClassAtoms, EcmaSpellsItem, ItemAtoms, EcmaMembers, AllInRange;
    AtomsPrint(item);
    ItemIsAtoms(item, "]" + rest, names);
  }

  lemma {:induction false} CountIsInGrammar(op: RepetitionOp)
    requires SpelledOp(op) && EcmaQuantifies(op)
    ensures IsCount(op.quantifier) && WriteCount(op.quantifier, op.lazy) == PrintOp(op)
  {
    CountAgreesIff(op);
    match op.quantifier
    case Exactly(n) => TightIff(n);
    case AtLeast(n) => TightIff(n);
    case Bounded(n, m) => TightIff(n); TightIff(m);
    case _ =>
  }

  /** Nothing but an atom, and so one plain term, is repeated. */
  lemma {:induction false} AtomIsPlain(ast: Ast)
    requires !ast.Empty? && !ast.Flags? && !ast.Alternation? && !ast.Concat? && !ast.Repetition? && !ast.Assertion?
    ensures |TermsOf(ast)| == 1 && TermsOf(ast)[0].PlainTerm?
  {
  }

  lemma {:induction false} LeafIsInGrammar(ast: Ast, rest: string, names: Names)
    requires Spelled(ast) && EcmaSpells(ast, rest, names) && EcmaReadsTree(ast)
    requires !ast.Repetition? && !ast.Group? && !ast.Concat? && !ast.Alternation?
    ensures WriteTerms(TermsOf(ast)) == Print(ast) && AreTerms(TermsOf(ast), rest, names)
  {
    hide SpelledBracketed, EcmaReads, IsCharacter, EcmaSpellsProperty, EcmaReadsClass;
    match ast
    case LiteralAst(literal) =>
      LiteralIsCharacter(literal, rest, false);
      OneTerm(TermsOf(ast)[0], rest, names);
    case Dot(_) => OneTerm(TermsOf(ast)[0], rest, names);
    case Assertion(_, _) => OneTerm(TermsOf(ast)[0], rest, names);
    case UnicodeAst(property) =>
      PropertyIsWritten(property, rest, names);
      OneTerm(TermsOf(ast)[0], rest, names);
    case PerlAst(perl) =>
      PerlIsWritten(perl.kind, perl.negated);
      OneTerm(TermsOf(ast)[0], rest, names);
    case BracketedAst(bracketed) =>
      ClassIsInGrammar(bracketed, rest, names);
      OneTerm(TermsOf(ast)[0], rest, names);
    case Empty =>
  }

  lemma {:induction false} RepetitionIsInGrammar(op: RepetitionOp, sub: Ast, rest: string, names: Names)
    requires Spelled(Repetition(op, sub)) && EcmaSpells(Repetition(op, sub), rest, names)
    requires EcmaReadsTree(Repetition(op, sub))
    requires WriteTerms(TermsOf(sub)) == Print(sub) && AreTerms(TermsOf(sub), PrintOp(op) + rest, names)
    ensures var terms := TermsOf(Repetition(op, sub));
      WriteTerms(terms) == Print(Repetition(op, sub)) && AreTerms(terms, rest, names)
  {
    AtomIsPlain(sub);
    CountIsInGrammar(op);
    var term := TermsOf(sub)[0];
    assert TermsOf(sub) == [term];
    hide TermsOf, Print, IsAtom, WriteAtom, EcmaSpells, Spelled, PrintOp, SpelledOp, EcmaQuantifies;
    OneTerm(term, PrintOp(op) + rest, names);
    OneTerm(RepeatedTerm(term.atom, op.quantifier, op.lazy), rest, names);
    RepetitionIs(op, sub);
  }

  lemma {:induction false} RepetitionIs(op: RepetitionOp, sub: Ast)
    ensures Print(Repetition(op, sub)) == Print(sub) + PrintOp(op)
    ensures TermsOf(Repetition(op, sub)) == RepeatedOf(TermsOf(sub), op)
  {
  }

  lemma {:induction false} GroupIsInGrammar(kind: GroupKind, sub: Ast, rest: string, names: Names)
    requires EcmaGroup(kind, names)
    requires WriteDisjunction(DisjunctionOf(sub)) == Print(sub) && IsDisjunction(DisjunctionOf(sub), ")" + rest, names)
    ensures var terms := TermsOf(Group(kind, sub));
      WriteTerms(terms) == Print(Group(kind, sub)) && AreTerms(terms, rest, names)
  {
    var atom := GroupOf(kind, DisjunctionOf(sub));
    hide DisjunctionOf, WriteDisjunction, IsDisjunction;
    OneTerm(PlainTerm(atom), rest, names);
    assert kind.NonCapturing? ==> PrintFlags(kind.flags) == "";
    assert WriteAtom(atom) == GroupOpening(kind) + Print(sub) + ")";
  }

  /** What is accepted and read alike is in the grammar, as it is written. */
  lemma {:induction false} TreeIsInGrammar(ast: Ast, rest: string, names: Names)
    requires Spelled(ast) && EcmaSpells(ast, rest, names) && EcmaReadsTree(ast)
    ensures !ast.Alternation? ==> WriteTerms(TermsOf(ast)) == Print(ast) && AreTerms(TermsOf(ast), rest, names)
    ensures WriteDisjunction(DisjunctionOf(ast)) == Print(ast) && IsDisjunction(DisjunctionOf(ast), rest, names)
    decreases ast, 1
  {
    hide WriteTerms, AreTerms, WriteDisjunction, IsDisjunction;
    match ast {
      case Repetition(op, sub) =>
        TreeIsInGrammar(sub, PrintOp(op) + rest, names);
        RepetitionIsInGrammar(op, sub, rest, names);
      case Group(kind, sub) =>
        TreeIsInGrammar(sub, ")" + rest, names);
        GroupIsInGrammar(kind, sub, rest, names);
      case Concat(asts) => ConcatIsInGrammar(asts, rest, names);
      case Alternation(asts) => AlternativesAreInGrammar(asts, rest, names);
      case _ => LeafIsInGrammar(ast, rest, names);
    }
    if !ast.Alternation? {
      OneAlternative(TermsOf(ast), rest, names);
    } else {
      AlternationIsInGrammar(ast.asts, rest, names);
    }
  }

  lemma {:induction false} AlternationIsInGrammar(asts: seq<Ast>, rest: string, names: Names)
    requires WriteMore(AlternativesOf(asts)) == PrintMore(asts) && AreAlternatives(AlternativesOf(asts), rest, names)
    requires asts != [] ==> WriteTerms(TermsOf(asts[0])) == Print(asts[0])
    requires asts != [] ==> WriteMore(AlternativesOf(asts[1..])) == PrintMore(asts[1..])
    ensures var ast := Alternation(asts);
      WriteDisjunction(DisjunctionOf(ast)) == Print(ast) && IsDisjunction(DisjunctionOf(ast), rest, names)
  {
    hide TermsOf, WriteTerms, AreTerms, Print;
    AlternationIs(asts);
    if asts == [] {
      OneAlternative([], rest, names);
      NoTerms(rest, names);
    } else {
      assert DisjunctionOf(Alternation(asts))[1..] == AlternativesOf(asts[1..]);
    }
  }

  lemma {:induction false} AlternationIs(asts: seq<Ast>)
    ensures Print(Alternation(asts)) == PrintAlternatives(asts) && TermsOf(Alternation(asts)) == []
  {
  }

  lemma {:induction false} NoTerms(rest: string, names: Names)
    ensures WriteTerms([]) == "" && AreTerms([], rest, names)
  {
  }

  lemma {:induction false} ConcatIsInGrammar(asts: seq<Ast>, rest: string, names: Names)
    requires (forall k :: 0 <= k < |asts| ==> Spelled(asts[k]) && !asts[k].Alternation? && EcmaReadsTree(asts[k]))
    requires EcmaSpellsAll(asts, rest, names)
    ensures WriteTerms(AllTermsOf(asts)) == PrintAll(asts) && AreTerms(AllTermsOf(asts), rest, names)
    decreases asts, 0
  {
    if asts != [] {
      hide TermsOf, Print, Spelled, EcmaSpells, EcmaReadsTree, WriteTerms, AreTerms;
      TreeIsInGrammar(asts[0], PrintAll(asts[1..]) + rest, names);
      ConcatIsInGrammar(asts[1..], rest, names);
      TermsConcat(TermsOf(asts[0]), AllTermsOf(asts[1..]), rest, names);
    }
  }

  lemma {:induction false} AlternativesAreInGrammar(asts: seq<Ast>, rest: string, names: Names)
    requires (forall k :: 0 <= k < |asts| ==> Spelled(asts[k]) && !asts[k].Alternation? && EcmaReadsTree(asts[k]))
    requires EcmaSpellsAlternatives(asts, rest, names)
    ensures WriteMore(AlternativesOf(asts)) == PrintMore(asts) && AreAlternatives(AlternativesOf(asts), rest, names)
    ensures asts != [] ==> WriteTerms(TermsOf(asts[0])) == Print(asts[0])
    ensures asts != [] ==> WriteMore(AlternativesOf(asts[1..])) == PrintMore(asts[1..])
    decreases asts, 0
  {
    if asts != [] {
      hide TermsOf, Print, Spelled, EcmaSpells, EcmaReadsTree, WriteTerms, AreTerms;
      TreeIsInGrammar(asts[0], PrintMore(asts[1..]) + rest, names);
      AlternativesAreInGrammar(asts[1..], rest, names);
      TailOfConcat([Alternative(TermsOf(asts[0]))], AlternativesOf(asts[1..]));
    }
  }

  /** The main result, of what the translator accepts: where both dialects read it
      alike, its text is a pattern of ECMA-262's grammar. So no accepted text opens a
      group but with `(`, `(?:` or `(?<` and an identifier, or repeats a repetition or
      an assertion. */
  lemma {:induction false} AcceptedIsInGrammar(ast: Ast, names: Names)
    requires Spelled(ast) && EcmaSpells(ast, "", names) && ReadAlike(ast)
    ensures exists disjunction :: IsDisjunction(disjunction, "", names) && WriteDisjunction(disjunction) == Print(ast)
  {
    AdmittedIff(ast, "", names);
    TreeIsInGrammar(ast, "", names);
    assert IsDisjunction(DisjunctionOf(ast), "", names);
  }

  // --- Which nodes are accepted, by how they are written ----------------

  lemma {:induction false} FlagsAreWritten(flags: seq<FlagItem>)
    requires flags != []
    ensures PrintFlags(flags) != "" && PrintFlags(flags)[0] in "-imsUuRx"
  {
    assert PrintFlag(flags[0])[0] in "-imsUuRx";
  }

  /** A group is accepted exactly when what it holds is and it opens with `(`, `(?:`, or
      `(?<`, an identifier and `>`. */
  lemma {:induction false} GroupIsAcceptedIff(kind: GroupKind, sub: Ast, rest: string, names: Names)
    ensures EcmaSpells(Group(kind, sub), rest, names) <==>
      && EcmaSpells(sub, ")" + rest, names)
      && (GroupOpening(kind) == "(" || GroupOpening(kind) == "(?:"
          || exists name :: IsIdentifier(name, names) && GroupOpening(kind) == "(?<" + name + ">")
  {
    hide IsIdentifier, EcmaIdentifier;
    forall name { IdentifiersAre(name, names); }
    GroupOpens(kind);
    hide GroupOpening;
    if kind.CaptureName? && !kind.startsWithP {
      assert GroupOpening(kind) == "(?<" + kind.name + ">";
    }
  }

  /** What each group opens with tells the kinds apart, and the names. */
  lemma {:induction false} GroupOpens(kind: GroupKind)
    ensures GroupOpening(kind) == "(" <==> kind.CaptureIndex?
    ensures GroupOpening(kind) == "(?:" <==> kind == NonCapturing([])
    ensures forall name :: GroupOpening(kind) == "(?<" + name + ">" <==> kind == CaptureName(false, name)
  {
    var opening := GroupOpening(kind);
    forall name ensures opening == "(?<" + name + ">" <==> kind == CaptureName(false, name) {
      var named := "(?<" + name + ">";
      assert named[2] == '<' && named[3..|named| - 1] == name;
      match kind
      case CaptureIndex =>
      case CaptureName(true, _) => assert opening[2] == 'P';
      case CaptureName(false, other) => assert opening[3..|opening| - 1] == other;
      case NonCapturing(flags) => NonCapturingOpens(flags);
    }
    match kind
    case CaptureIndex =>
    case CaptureName(startsWithP, _) => assert opening[2] == if startsWithP then 'P' else '<';
    case NonCapturing(flags) => NonCapturingOpens(flags);
  }

  lemma {:induction false} NonCapturingOpens(flags: seq<FlagItem>)
    ensures var opening := GroupOpening(NonCapturing(flags));
      |opening| >= 3 && opening[2] in "-imsUuRx:" && (opening[2] == ':' <==> flags == [])
        && (flags == [] ==> opening == "(?:")
  {
    if flags != [] {
      FlagsAreWritten(flags);
      assert GroupOpening(NonCapturing(flags))[2] == PrintFlags(flags)[0];
    }
  }

  lemma {:induction false} IdentifiersAre(name: string, names: Names)
    ensures EcmaIdentifier(name, names) <==> IsIdentifier(name, names)
  {
  }

  /** Of what is no group: a repetition of anything but a repetition or an assertion, the
      four assertions, and the properties ECMA-262 names; no flags. */
  lemma {:induction false} NodeIsAcceptedIff(ast: Ast, rest: string, names: Names)
    ensures ast.Repetition? ==>
      (EcmaSpells(ast, rest, names) <==>
         EcmaSpells(ast.sub, PrintOp(ast.op) + rest, names) && !ast.sub.Repetition? && !ast.sub.Assertion?)
    ensures ast.Assertion? ==>
      (EcmaSpells(ast, rest, names) <==> PrintAssertion(ast.assertion) in {"^", "$", "\\b", "\\B"})
    ensures ast.UnicodeAst? ==> (EcmaSpells(ast, rest, names) <==> IsProperty(ast.property.kind, names))
    ensures ast.Flags? ==> !EcmaSpells(ast, rest, names)
    ensures ast.Dot? || ast.PerlAst? || ast.Empty? ==> EcmaSpells(ast, rest, names)
  {
    if ast.Assertion? {
      AssertionsAre(ast.assertion);
    }
  }

  lemma {:induction false} AssertionsAre(kind: AssertionKind)
    ensures PrintAssertion(kind) in {"^", "$", "\\b", "\\B"} <==>
      kind in {StartLine, EndLine, WordBoundary, NotWordBoundary}
  {
    match kind
    case WordStart => assert |PrintAssertion(kind)| > 2;
    case WordEnd => assert |PrintAssertion(kind)| > 2;
    case WordStartHalf => assert |PrintAssertion(kind)| > 2;
    case WordEndHalf => assert |PrintAssertion(kind)| > 2;
    case StartText => assert PrintAssertion(kind)[1] == 'A';
    case EndText => assert PrintAssertion(kind)[1] == 'z';
    case WordStartAngle => assert PrintAssertion(kind)[1] == '<';
    case WordEndAngle => assert PrintAssertion(kind)[1] == '>';
    case _ =>
  }
}
