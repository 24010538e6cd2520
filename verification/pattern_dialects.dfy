/** The two readings of a pattern tree that crates/kynos-openapi/src/pattern.rs
    mediates between: ECMA-262's with Unicode support (sections 22.2.1 and 22.2.2
    of its 15th edition) and the `regex` engine's. Each is a relation between the
    position a match starts at and the one it ends at in an input of Unicode scalar
    values. */
module PatternDialects {
  import opened PatternSyntax
  import opened Options

  /** What neither reading computes itself: the engine's Unicode-aware Perl
      classes, its POSIX classes, and the Unicode property tables both share. */
  datatype Tables = Tables(
    digit: char -> bool,
    word: char -> bool,
    white: char -> bool,
    posix: (string, char) -> bool,
    property: (UnicodeKind, char) -> bool)

  /** What ECMA-262 lists by name: the values of `General_Category` and `Script`,
      its binary properties, and which characters begin and continue an identifier. */
  datatype Names = Names(
    generalCategory: set<string>,
    binaryProperty: set<string>,
    script: set<string>,
    idStart: char -> bool,
    idContinue: char -> bool)

  // --- ECMA-262: characters and classes ---------------------------------

  /** `SyntaxCharacter` of section 22.2.1. */
  predicate SyntaxCharacter(c: char) {
    c in "^$\\.*+?()[]{}|"
  }

  predicate DecimalDigit(c: char) {
    '0' <= c <= '9'
  }

  predicate IsScalar(n: nat) {
    n < 0xD800 || 0xE000 <= n < 0x11_0000
  }

  function Scalar(n: nat): Option<char> {
    if IsScalar(n) then Some(n as char) else None
  }

  /** The character `written` stands for as an atom or, `inClass`, as a class
      atom; `None` where it is no such atom. */
  function EcmaCharacter(written: string, inClass: bool): Option<char> {
    if |written| == 1 then
      var c := written[0];
      if (if inClass then c == '\\' || c == ']' else SyntaxCharacter(c)) then None else Some(c)
    else if |written| < 2 || written[0] != '\\' then None
    else if |written| == 2 then EcmaEscape(written[1], inClass)
    else if written[1] == 'x' then
      if |written| == 4 && AllHex(written[2..]) then Scalar(HexValue(written[2..])) else None
    else if written[1] == 'u' then
      if |written| == 6 && AllHex(written[2..]) then Scalar(HexValue(written[2..]))
      else if |written| >= 5 && written[2] == '{' && written[|written| - 1] == '}' && AllHex(written[3..|written| - 1])
      then Scalar(HexValue(written[3..|written| - 1]))
      else None
    else if |written| == 3 && written[1] == 'c' && ('a' <= written[2] <= 'z' || 'A' <= written[2] <= 'Z') then
      Some((written[2] as int % 32) as char)
    else None
  }

  /** The character a backslash and `e` stand for: a control escape, NUL, an
      identity escape, or in a class `\b` and `\-`. */
  function EcmaEscape(e: char, inClass: bool): Option<char> {
    if e == 't' then Some('\U{0009}')
    else if e == 'n' then Some('\U{000A}')
    else if e == 'v' then Some('\U{000B}')
    else if e == 'f' then Some('\U{000C}')
    else if e == 'r' then Some('\U{000D}')
    else if e == '0' then Some('\U{0000}')
    else if SyntaxCharacter(e) || e == '/' then Some(e)
    else if inClass && e == 'b' then Some('\U{0008}')
    else if inClass && e == '-' then Some('-')
    else None
  }

  /** `\d`, `\w` and `\s` of section 22.2.2.9: `White` is `WhiteSpace` (section
      12.2, its `USP` the category Zs) and `LineTerminator` (section 12.3). */
  predicate EcmaPerl(kind: PerlKind, c: char) {
    match kind
    case Digit => DecimalDigit(c)
    case Word => DecimalDigit(c) || 'A' <= c <= 'Z' || 'a' <= c <= 'z' || c == '_'
    case White => WhiteSpace(c) || LineTerminator(c)
  }

  predicate WhiteSpace(c: char) {
    c in {'\U{0009}', '\U{000B}', '\U{000C}', '\U{FEFF}'} || SpaceSeparator(c)
  }

  predicate SpaceSeparator(c: char) {
    || c in {' ', '\U{00A0}', '\U{1680}', '\U{202F}', '\U{205F}', '\U{3000}'}
    || '\U{2000}' <= c <= '\U{200A}'
  }

  predicate LineTerminator(c: char) {
    c == '\n' || c == '\r' || c == '\U{2028}' || c == '\U{2029}'
  }

  predicate UnicodeHolds(property: UnicodeClass, tables: Tables, c: char) {
    property.negated != tables.property(property.kind, c)
  }

  /** A member of a class, as section 22.2.1 reads one: an atom by itself, or the
      range from one atom to another. */
  datatype ClassMember = Single(atom: Atom) | Between(lo: Atom, hi: Atom)

  /** How ECMA-262 reads the atoms of a class: a `-` with an atom on either side of
      it, whatever those are, makes a range of the two. */
  function EcmaMembers(atoms: seq<Atom>): seq<ClassMember> {
    if atoms == [] then []
    else if |atoms| >= 3 && IsBare(atoms[1], '-') then [Between(atoms[0], atoms[2])] + EcmaMembers(atoms[3..])
    else [Single(atoms[0])] + EcmaMembers(atoms[1..])
  }

  /** The single character an atom is, if it is one. */
  function AtomCharacter(atom: Atom): Option<char> {
    if atom.Character? then EcmaCharacter(atom.literal.written, true) else None
  }

  /** The early errors of section 22.2.1.1: a range runs from a character to one not
      below it. */
  predicate InRange(member: ClassMember) {
    member.Between? ==>
      var lo, hi := AtomCharacter(member.lo), AtomCharacter(member.hi);
      lo.Some? && hi.Some? && lo.value <= hi.value
  }

  predicate AllInRange(members: seq<ClassMember>) {
    forall k :: 0 <= k < |members| ==> InRange(members[k])
  }

  /** An atom's characters. ECMA-262 has no POSIX class and no nested class, so those
      hold none. */
  predicate AtomHolds(atom: Atom, tables: Tables, c: char) {
    match atom
    case Character(_) => AtomCharacter(atom) == Some(c)
    case Compound(UnicodeItem(property)) => UnicodeHolds(property, tables, c)
    case Compound(PerlItem(perl)) => perl.negated != EcmaPerl(perl.kind, c)
    case Compound(_) => false
  }

  predicate MemberHolds(member: ClassMember, tables: Tables, c: char) {
    match member
    case Single(atom) => AtomHolds(atom, tables, c)
    case Between(_, _) =>
      var lo, hi := AtomCharacter(member.lo), AtomCharacter(member.hi);
      lo.Some? && hi.Some? && lo.value <= c <= hi.value
  }

  predicate AnyHolds(members: seq<ClassMember>, tables: Tables, c: char) {
    members != [] && (MemberHolds(members[0], tables, c) || AnyHolds(members[1..], tables, c))
  }

  /** A class's characters. A set operation is none of ECMA-262's. */
  predicate EcmaClass(bracketed: Bracketed, tables: Tables, c: char) {
    bracketed.negated !=
      (bracketed.members.ItemSet? && AnyHolds(EcmaMembers(ItemAtoms(bracketed.members.item)), tables, c))
  }

  // --- ECMA-262: matching -----------------------------------------------

  predicate EcmaWordAt(s: string, i: int) {
    0 <= i < |s| && EcmaPerl(Word, s[i])
  }

  /** Without the `m` flag; ECMA-262 has only these four. */
  predicate EcmaAssertion(kind: AssertionKind, s: string, i: nat) {
    match kind
    case StartLine => i == 0
    case EndLine => i == |s|
    case WordBoundary => EcmaWordAt(s, i - 1) != EcmaWordAt(s, i)
    case NotWordBoundary => EcmaWordAt(s, i - 1) == EcmaWordAt(s, i)
    case _ => false
  }

  /** `ast` matches the characters of `s` from `i` up to `j`. */
  ghost predicate EcmaMatch(ast: Ast, tables: Tables, s: string, i: nat, j: nat)
    requires i <= j <= |s|
    decreases ast, 0, 0, 0
  {
    match ast
    case Empty => i == j
    case Flags(_) => false
    case LiteralAst(literal) => j == i + 1 && EcmaCharacter(literal.written, false) == Some(s[i])
    case Dot(_) => j == i + 1 && !LineTerminator(s[i])
    case Assertion(_, kind) => i == j && EcmaAssertion(kind, s, i)
    case UnicodeAst(property) => j == i + 1 && UnicodeHolds(property, tables, s[i])
    case PerlAst(perl) => j == i + 1 && perl.negated != EcmaPerl(perl.kind, s[i])
    case BracketedAst(bracketed) => j == i + 1 && EcmaClass(bracketed, tables, s[i])
    case Repetition(op, sub) => EcmaRepeat(sub, op.min, op.max, tables, s, i, j)
    case Group(_, sub) => EcmaMatch(sub, tables, s, i, j)
    case Alternation(asts) => exists k :: 0 <= k < |asts| && EcmaMatch(asts[k], tables, s, i, j)
    case Concat(asts) => EcmaAll(asts, tables, s, i, j)
  }

  ghost predicate EcmaAll(asts: seq<Ast>, tables: Tables, s: string, i: nat, j: nat)
    requires i <= j <= |s|
    decreases asts, 0, 0, 0
  {
    if asts == [] then i == j
    else exists k: nat :: i <= k <= j && EcmaMatch(asts[0], tables, s, i, k) && EcmaAll(asts[1..], tables, s, k, j)
  }

  /** `RepeatMatcher` of section 22.2.2.3.1: with no iteration left to make it
      goes on, and once `min` are made it refuses an iteration that consumes
      nothing. */
  ghost predicate EcmaRepeat(sub: Ast, min: nat, max: Option<nat>, tables: Tables, s: string, i: nat, j: nat)
    requires i <= j <= |s|
    decreases sub, 1, min, j - i
  {
    if max == Some(0) then i == j
    else
      || (min == 0 && i == j)
      || exists k: nat ::
           && i <= k <= j
           && EcmaMatch(sub, tables, s, i, k)
           && !(min == 0 && k == i)
           && EcmaRepeat(sub, if min == 0 then 0 else min - 1, OneFewer(max), tables, s, k, j)
  }

  function OneFewer(max: Option<nat>): Option<nat> {
    match max
    case None => None
    case Some(n) => if n == 0 then Some(0) else Some(n - 1)
  }

  /** JSON Schema's `pattern` is unanchored: a match anywhere will do. */
  ghost predicate EcmaFinds(ast: Ast, tables: Tables, s: string) {
    exists i: nat, j: nat :: i <= j <= |s| && EcmaMatch(ast, tables, s, i, j)
  }

  // --- The engine: characters and classes -------------------------------

  /** The engine's flags that bear on what a tree matches. `i`, `x`, `U` and `R`
      set none of them. */
  datatype EngineFlags = EngineFlags(multiLine: bool, dotAll: bool, unicode: bool)

  const DEFAULT_FLAGS := EngineFlags(false, false, true)

  function ApplyFlags(items: seq<FlagItem>, on: bool, flags: EngineFlags): EngineFlags
    decreases |items|
  {
    if items == [] then flags
    else match items[0]
      case Negation => ApplyFlags(items[1..], false, flags)
      case MultiLine => ApplyFlags(items[1..], on, flags.(multiLine := on))
      case DotMatchesNewLine => ApplyFlags(items[1..], on, flags.(dotAll := on))
      case UnicodeFlag => ApplyFlags(items[1..], on, flags.(unicode := on))
      case _ => ApplyFlags(items[1..], on, flags)
  }

  predicate EnginePerl(kind: PerlKind, tables: Tables, unicode: bool, c: char) {
    match kind
    case Digit => if unicode then tables.digit(c) else '0' <= c <= '9'
    case Word =>
      if unicode then tables.word(c)
      else '0' <= c <= '9' || 'A' <= c <= 'Z' || 'a' <= c <= 'z' || c == '_'
    case White => if unicode then tables.white(c) else c == ' ' || '\t' <= c <= '\r'
  }

  predicate EngineItem(item: ClassItem, tables: Tables, unicode: bool, c: char) {
    match item
    case NoItem => false
    case LiteralItem(literal) => c == literal.c
    case RangeItem(lo, hi) => lo.c <= c <= hi.c
    case AsciiItem(name, negated) => negated != tables.posix(name, c)
    case UnicodeItem(property) => UnicodeHolds(property, tables, c)
    case PerlItem(perl) => perl.negated != EnginePerl(perl.kind, tables, unicode, c)
    case BracketedItem(bracketed) => EngineClass(bracketed, tables, unicode, c)
    case UnionItem(items) => EngineAny(items, tables, unicode, c)
  }

  predicate EngineAny(items: seq<ClassItem>, tables: Tables, unicode: bool, c: char) {
    items != [] && (EngineItem(items[0], tables, unicode, c) || EngineAny(items[1..], tables, unicode, c))
  }

  predicate EngineSet(members: ClassSet, tables: Tables, unicode: bool, c: char) {
    match members
    case ItemSet(item) => EngineItem(item, tables, unicode, c)
    case BinarySet(op, lhs, rhs) =>
      var left, right := EngineSet(lhs, tables, unicode, c), EngineSet(rhs, tables, unicode, c);
      match op
      case Intersection => left && right
      case Difference => left && !right
      case SymmetricDifference => left != right
  }

  predicate EngineClass(bracketed: Bracketed, tables: Tables, unicode: bool, c: char) {
    bracketed.negated != EngineSet(bracketed.members, tables, unicode, c)
  }

  // --- The engine: matching ---------------------------------------------

  predicate EngineWordAt(s: string, i: int, tables: Tables, unicode: bool) {
    0 <= i < |s| && EnginePerl(Word, tables, unicode, s[i])
  }

  predicate EngineAssertion(kind: AssertionKind, tables: Tables, flags: EngineFlags, s: string, i: nat)
    requires i <= |s|
  {
    var before, after := EngineWordAt(s, i - 1, tables, flags.unicode), EngineWordAt(s, i, tables, flags.unicode);
    match kind
    case StartLine => i == 0 || (flags.multiLine && s[i - 1] == '\n')
    case EndLine => i == |s| || (flags.multiLine && s[i] == '\n')
    case StartText => i == 0
    case EndText => i == |s|
    case WordBoundary => before != after
    case NotWordBoundary => before == after
    case WordStart | WordStartAngle => !before && after
    case WordEnd | WordEndAngle => before && !after
    case WordStartHalf => !before
    case WordEndHalf => !after
  }

  /** A bare flag group `(?i)` acts on what follows it in its group, which is not
      modelled: no translation holds one. */
  ghost predicate EngineMatch(ast: Ast, tables: Tables, flags: EngineFlags, s: string, i: nat, j: nat)
    requires i <= j <= |s|
    decreases ast, 0, 0
  {
    match ast
    case Empty | Flags(_) => i == j
    case LiteralAst(literal) => j == i + 1 && s[i] == literal.c
    case Dot(_) => j == i + 1 && (flags.dotAll || s[i] != '\n')
    case Assertion(_, kind) => i == j && EngineAssertion(kind, tables, flags, s, i)
    case UnicodeAst(property) => j == i + 1 && UnicodeHolds(property, tables, s[i])
    case PerlAst(perl) => j == i + 1 && perl.negated != EnginePerl(perl.kind, tables, flags.unicode, s[i])
    case BracketedAst(bracketed) => j == i + 1 && EngineClass(bracketed, tables, flags.unicode, s[i])
    case Repetition(op, sub) => EngineRepeat(sub, op.min, op.max, tables, flags, s, i, j)
    case Group(kind, sub) =>
      EngineMatch(sub, tables, if kind.NonCapturing? then ApplyFlags(kind.flags, true, flags) else flags, s, i, j)
    case Alternation(asts) => exists k :: 0 <= k < |asts| && EngineMatch(asts[k], tables, flags, s, i, j)
    case Concat(asts) => EngineAll(asts, tables, flags, s, i, j)
  }

  ghost predicate EngineAll(asts: seq<Ast>, tables: Tables, flags: EngineFlags, s: string, i: nat, j: nat)
    requires i <= j <= |s|
    decreases asts, 0, 0
  {
    if asts == [] then i == j
    else exists k: nat ::
      i <= k <= j && EngineMatch(asts[0], tables, flags, s, i, k) && EngineAll(asts[1..], tables, flags, s, k, j)
  }

  predicate Within(n: nat, min: nat, max: Option<nat>) {
    min <= n && (max.Some? ==> n <= max.value)
  }

  /** `sub` some number of times over, from `min` to `max`. */
  ghost predicate EngineRepeat(
      sub: Ast, min: nat, max: Option<nat>, tables: Tables, flags: EngineFlags, s: string, i: nat, j: nat)
    requires i <= j <= |s|
    decreases sub, 2, 0
  {
    exists n: nat :: Within(n, min, max) && EngineTimes(sub, n, tables, flags, s, i, j)
  }

  /** `sub` exactly `n` times over. */
  ghost predicate EngineTimes(sub: Ast, n: nat, tables: Tables, flags: EngineFlags, s: string, i: nat, j: nat)
    requires i <= j <= |s|
    decreases sub, 1, n
  {
    if n == 0 then i == j
    else exists k: nat ::
      i <= k <= j && EngineMatch(sub, tables, flags, s, i, k) && EngineTimes(sub, n - 1, tables, flags, s, k, j)
  }

  ghost predicate EngineFinds(ast: Ast, tables: Tables, s: string) {
    exists i: nat, j: nat :: i <= j <= |s| && EngineMatch(ast, tables, DEFAULT_FLAGS, s, i, j)
  }

  // --- ECMA-262: what it spells -----------------------------------------

  /** The literal written `written`, before `rest`, is an atom ECMA-262 reads as
      `c`. `\0` takes no decimal digit after it. */
  predicate EcmaReads(written: string, rest: string, c: char, inClass: bool) {
    && EcmaCharacter(written, inClass) == Some(c)
    && !(written == "\\0" && rest != "" && DecimalDigit(rest[0]))
  }

  predicate EcmaSpellsItem(item: ClassItem, rest: string, names: Names) {
    match item
    case NoItem | PerlItem(_) => true
    case AsciiItem(_, _) | BracketedItem(_) => false
    case LiteralItem(literal) => EcmaReads(literal.written, rest, literal.c, true)
    case RangeItem(lo, hi) =>
      && EcmaReads(lo.written, "-" + hi.written + rest, lo.c, true)
      && EcmaReads(hi.written, rest, hi.c, true)
    case UnicodeItem(property) => EcmaSpellsProperty(property.kind, names)
    case UnionItem(items) => EcmaSpellsItems(items, rest, names)
  }

  predicate EcmaSpellsItems(items: seq<ClassItem>, rest: string, names: Names) {
    items == [] || (
      && EcmaSpellsItem(items[0], PrintItems(items[1..]) + rest, names)
      && EcmaSpellsItems(items[1..], rest, names))
  }

  /** `UnicodePropertyValueExpression`: on the left of a `=` stands one of the three
      properties that have values, and without a `=` the left-hand side is implied or
      the property binary. */
  predicate EcmaSpellsProperty(kind: UnicodeKind, names: Names) {
    || (kind.Named? && kind.name in names.generalCategory + names.binaryProperty)
    || (kind.NamedValue? && kind.op == Equal && kind.value in EcmaValues(kind.name, names))
  }

  function EcmaValues(property: string, names: Names): set<string> {
    if property in {"General_Category", "gc"} then names.generalCategory
    else if property in {"Script", "sc", "Script_Extensions", "scx"} then names.script
    else {}
  }

  /** `GroupName`: an identifier. */
  predicate EcmaIdentifier(name: string, names: Names) {
    && name != ""
    && (names.idStart(name[0]) || name[0] == '$' || name[0] == '_')
    && forall k :: 1 <= k < |name| ==>
         names.idContinue(name[k]) || name[k] in {'$', '\U{200C}', '\U{200D}'}
  }

  predicate EcmaGroup(kind: GroupKind, names: Names) {
    match kind
    case CaptureIndex => true
    case CaptureName(startsWithP, name) => !startsWithP && EcmaIdentifier(name, names)
    case NonCapturing(flags) => flags == []
  }

  /** Part by part, `ast` is ECMA-262's: every literal, before `rest`, is an atom it
      reads as the same character, only an atom is quantified, and no construct is
      the engine's own. What its classes' atoms and its counts are read as is for
      `EcmaReadsTree` to say. */
  predicate EcmaSpells(ast: Ast, rest: string, names: Names) {
    match ast
    case Empty | Dot(_) | PerlAst(_) => true
    case Flags(_) => false
    case LiteralAst(literal) => EcmaReads(literal.written, rest, literal.c, false)
    case Assertion(_, kind) => kind in {StartLine, EndLine, WordBoundary, NotWordBoundary}
    case UnicodeAst(property) => EcmaSpellsProperty(property.kind, names)
    case BracketedAst(bracketed) =>
      bracketed.members.ItemSet? && EcmaSpellsItem(bracketed.members.item, "]" + rest, names)
    case Repetition(op, sub) => !sub.Repetition? && !sub.Assertion? && EcmaSpells(sub, PrintOp(op) + rest, names)
    case Group(kind, sub) => EcmaGroup(kind, names) && EcmaSpells(sub, ")" + rest, names)
    case Alternation(asts) => EcmaSpellsAlternatives(asts, rest, names)
    case Concat(asts) => EcmaSpellsAll(asts, rest, names)
  }

  predicate EcmaSpellsAll(asts: seq<Ast>, rest: string, names: Names) {
    asts == [] || (EcmaSpells(asts[0], PrintAll(asts[1..]) + rest, names) && EcmaSpellsAll(asts[1..], rest, names))
  }

  predicate EcmaSpellsAlternatives(asts: seq<Ast>, rest: string, names: Names) {
    asts == [] || (
      && EcmaSpells(asts[0], PrintMore(asts[1..]) + rest, names)
      && EcmaSpellsAlternatives(asts[1..], rest, names))
  }

  // --- ECMA-262: what it reads a tree's text as -------------------------

  /** The engine's members, as ECMA-262 would have them. */
  function AsMember(item: ClassItem): ClassMember {
    match item
    case LiteralItem(literal) => Single(Character(literal))
    case RangeItem(lo, hi) => Between(Character(lo), Character(hi))
    case _ => Single(Compound(item))
  }

  function AsMembers(items: seq<ClassItem>): seq<ClassMember> {
    if items == [] then [] else [AsMember(items[0])] + AsMembers(items[1..])
  }

  /** A hyphen, or the range from one to another: the character `-` either way. */
  predicate IsHyphens(member: ClassMember) {
    match member
    case Single(atom) => IsBare(atom, '-')
    case Between(lo, hi) => IsBare(lo, '-') && IsBare(hi, '-')
  }

  /** The members behind the hyphens a class opens with. */
  function AfterHyphens(members: seq<ClassMember>): seq<ClassMember> {
    if members != [] && IsHyphens(members[0]) then AfterHyphens(members[1..]) else members
  }

  /** ECMA-262 reads the class's text, without an early error, as the members the
      engine does, however many hyphens it opens with. */
  predicate EcmaReadsClass(item: ClassItem) {
    var members := EcmaMembers(ItemAtoms(item));
    AllInRange(members) && AfterHyphens(members) == AfterHyphens(AsMembers(MembersOf(item)))
  }

  /** A `Quantifier` of section 22.2.1, its numbers nothing but digits and, by an
      early error, in order. */
  predicate EcmaQuantifies(op: RepetitionOp) {
    && Says(op.quantifier, op.min, op.max)
    && match op.quantifier
       case ZeroOrMore | OneOrMore | ZeroOrOne => true
       case Exactly(n) => PrintFigure(n) == n.digits
       case AtLeast(n) => PrintFigure(n) == n.digits
       case Bounded(n, m) => PrintFigure(n) == n.digits && PrintFigure(m) == m.digits
  }

  /** ECMA-262 reads the counts and the classes of `ast` as the tree has them. */
  predicate EcmaReadsTree(ast: Ast) {
    match ast
    case BracketedAst(bracketed) => bracketed.members.ItemSet? && EcmaReadsClass(bracketed.members.item)
    case Repetition(op, sub) => EcmaQuantifies(op) && EcmaReadsTree(sub)
    case Group(_, sub) => EcmaReadsTree(sub)
    case Alternation(asts) => forall k :: 0 <= k < |asts| ==> EcmaReadsTree(asts[k])
    case Concat(asts) => forall k :: 0 <= k < |asts| ==> EcmaReadsTree(asts[k])
    case _ => true
  }

  /** `ast`, written before `rest`, is a pattern ECMA-262 reads as this tree. */
  predicate EcmaAdmits(ast: Ast, rest: string, names: Names) {
    EcmaSpells(ast, rest, names) && EcmaReadsTree(ast)
  }

  // --- Where the two read one text apart --------------------------------

  /** The hyphens a class opens with. */
  function OpeningHyphens(atoms: seq<Atom>): (n: nat)
    ensures n <= |atoms|
  {
    if atoms != [] && IsBare(atoms[0], '-') then 1 + OpeningHyphens(atoms[1..]) else 0
  }

  /** Two hyphens left over from the threes ECMA-262 reads as ranges, and a member
      behind them: to ECMA-262 the range from a hyphen to it. */
  predicate OpensInRange(atoms: seq<Atom>) {
    OpeningHyphens(atoms) % 3 == 2 && OpeningHyphens(atoms) < |atoms|
  }

  predicate IsTight(figure: Figure) {
    figure.before == "" && figure.after == ""
  }

  predicate HasNoSpaces(quantifier: Quantifier) {
    match quantifier
    case ZeroOrMore | OneOrMore | ZeroOrOne => true
    case Exactly(n) => IsTight(n)
    case AtLeast(n) => IsTight(n)
    case Bounded(n, m) => IsTight(n) && IsTight(m)
  }

  /** No count of `ast` holds a space, and no class of it opens in a range. */
  predicate ReadAlike(ast: Ast) {
    match ast
    case BracketedAst(bracketed) =>
      bracketed.members.ItemSet? ==> !OpensInRange(ItemAtoms(bracketed.members.item))
    case Repetition(op, sub) => HasNoSpaces(op.quantifier) && ReadAlike(sub)
    case Group(_, sub) => ReadAlike(sub)
    case Alternation(asts) => forall k :: 0 <= k < |asts| ==> ReadAlike(asts[k])
    case Concat(asts) => forall k :: 0 <= k < |asts| ==> ReadAlike(asts[k])
    case _ => true
  }
}
