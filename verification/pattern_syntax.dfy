/** The syntax trees of `regex_syntax::ast` that the translator walks
    (crates/kynos-openapi/src/pattern.rs), how each is written, and which
    spellings of a literal the parser reads as which character.

    A leaf carries its span, as the parser records it; the spans of inner nodes
    are never read by the translator and are left out. `written` is the slice a
    leaf was read from. Offsets count characters. */
module PatternSyntax {
  import opened Numerals
  import opened Options

  datatype Span = Span(start: nat, end: nat)

  // --- Literals ---------------------------------------------------------

  datatype HexKind = X | UnicodeShort | UnicodeLong

  datatype SpecialKind = Bell | FormFeed | Tab | LineFeed | CarriageReturn | VerticalTab | Space

  datatype LiteralKind =
    | Verbatim
    | Meta
    | Superfluous
    | Octal
    | HexFixed(hex: HexKind)
    | HexBrace(hex: HexKind)
    | Special(special: SpecialKind)

  datatype Literal = Literal(span: Span, kind: LiteralKind, written: string, c: char)

  // --- Classes ----------------------------------------------------------

  datatype PerlKind = Digit | Word | White

  datatype Perl = Perl(span: Span, kind: PerlKind, negated: bool)

  datatype UnicodeOp = Equal | Colon | NotEqual

  datatype UnicodeKind =
    | OneLetter(letter: char)
    | Named(name: string)
    | NamedValue(op: UnicodeOp, name: string, value: string)

  datatype UnicodeClass = UnicodeClass(negated: bool, kind: UnicodeKind)

  datatype SetOp = Intersection | Difference | SymmetricDifference

  datatype ClassSet =
    | ItemSet(item: ClassItem)
    | BinarySet(op: SetOp, lhs: ClassSet, rhs: ClassSet)

  datatype ClassItem =
    | NoItem
    | LiteralItem(literal: Literal)
    | RangeItem(lo: Literal, hi: Literal)
    | AsciiItem(name: string, negated: bool)
    | UnicodeItem(property: UnicodeClass)
    | PerlItem(perl: Perl)
    | BracketedItem(bracketed: Bracketed)
    | UnionItem(items: seq<ClassItem>)

  datatype Bracketed = Bracketed(negated: bool, members: ClassSet)

  // --- Patterns ---------------------------------------------------------

  datatype AssertionKind =
    | StartLine | EndLine | StartText | EndText
    | WordBoundary | NotWordBoundary
    | WordStart | WordEnd | WordStartAngle | WordEndAngle | WordStartHalf | WordEndHalf

  datatype FlagItem =
    | Negation | CaseInsensitive | MultiLine | DotMatchesNewLine | SwapGreed | UnicodeFlag | Crlf | IgnoreWhitespace

  datatype GroupKind =
    | CaptureIndex
    | CaptureName(startsWithP: bool, name: string)
    | NonCapturing(flags: seq<FlagItem>)

  /** A number of a count, between the whitespace the engine's parser skips. */
  datatype Figure = Figure(before: string, digits: string, after: string)

  datatype Quantifier =
    | ZeroOrMore | OneOrMore | ZeroOrOne
    | Exactly(n: Figure) | AtLeast(n: Figure) | Bounded(n: Figure, m: Figure)

  /** How often a repetition repeats, as it is written and as the engine's parser
      reads it. */
  datatype RepetitionOp = RepetitionOp(quantifier: Quantifier, lazy: bool, min: nat, max: Option<nat>)

  datatype Ast =
    | Empty
    | Flags(items: seq<FlagItem>)
    | LiteralAst(literal: Literal)
    | Dot(span: Span)
    | Assertion(span: Span, assertion: AssertionKind)
    | UnicodeAst(property: UnicodeClass)
    | PerlAst(perl: Perl)
    | BracketedAst(bracketed: Bracketed)
    | Repetition(op: RepetitionOp, sub: Ast)
    | Group(kind: GroupKind, sub: Ast)
    | Alternation(asts: seq<Ast>)
    | Concat(asts: seq<Ast>)

  // --- How each is written ----------------------------------------------

  function PrintPerl(kind: PerlKind, negated: bool): string {
    match kind
    case Digit => if negated then "\\D" else "\\d"
    case Word => if negated then "\\W" else "\\w"
    case White => if negated then "\\S" else "\\s"
  }

  function PrintUnicode(property: UnicodeClass): string {
    (if property.negated then "\\P" else "\\p") +
    match property.kind
    case OneLetter(letter) => [letter]
    case Named(name) => "{" + name + "}"
    case NamedValue(op, name, value) => "{" + name + PrintUnicodeOp(op) + value + "}"
  }

  function PrintUnicodeOp(op: UnicodeOp): string {
    match op
    case Equal => "="
    case Colon => ":"
    case NotEqual => "!="
  }

  function PrintSetOp(op: SetOp): string {
    match op
    case Intersection => "&&"
    case Difference => "--"
    case SymmetricDifference => "~~"
  }

  function PrintItem(item: ClassItem): string {
    match item
    case NoItem => ""
    case LiteralItem(literal) => literal.written
    case RangeItem(lo, hi) => lo.written + "-" + hi.written
    case AsciiItem(name, negated) => (if negated then "[:^" else "[:") + name + ":]"
    case UnicodeItem(property) => PrintUnicode(property)
    case PerlItem(perl) => PrintPerl(perl.kind, perl.negated)
    case BracketedItem(bracketed) => PrintBracketed(bracketed)
    case UnionItem(items) => PrintItems(items)
  }

  function PrintItems(items: seq<ClassItem>): string {
    if items == [] then "" else PrintItem(items[0]) + PrintItems(items[1..])
  }

  function PrintSet(members: ClassSet): string {
    match members
    case ItemSet(item) => PrintItem(item)
    case BinarySet(op, lhs, rhs) => PrintSet(lhs) + PrintSetOp(op) + PrintSet(rhs)
  }

  function Opening(bracketed: Bracketed): string {
    if bracketed.negated then "[^" else "["
  }

  function PrintBracketed(bracketed: Bracketed): string {
    Opening(bracketed) + PrintSet(bracketed.members) + "]"
  }

  function PrintAssertion(kind: AssertionKind): string {
    match kind
    case StartLine => "^"
    case EndLine => "$"
    case StartText => "\\A"
    case EndText => "\\z"
    case WordBoundary => "\\b"
    case NotWordBoundary => "\\B"
    case WordStart => "\\b{start}"
    case WordEnd => "\\b{end}"
    case WordStartAngle => "\\<"
    case WordEndAngle => "\\>"
    case WordStartHalf => "\\b{start-half}"
    case WordEndHalf => "\\b{end-half}"
  }

  function PrintFlag(flag: FlagItem): string {
    match flag
    case Negation => "-"
    case CaseInsensitive => "i"
    case MultiLine => "m"
    case DotMatchesNewLine => "s"
    case SwapGreed => "U"
    case UnicodeFlag => "u"
    case Crlf => "R"
    case IgnoreWhitespace => "x"
  }

  function PrintFlags(flags: seq<FlagItem>): string {
    if flags == [] then "" else PrintFlag(flags[0]) + PrintFlags(flags[1..])
  }

  function GroupOpening(kind: GroupKind): string {
    match kind
    case CaptureIndex => "("
    case CaptureName(startsWithP, name) => (if startsWithP then "(?P<" else "(?<") + name + ">"
    case NonCapturing(flags) => "(?" + PrintFlags(flags) + ":"
  }

  function PrintFigure(figure: Figure): string {
    figure.before + figure.digits + figure.after
  }

  function PrintQuantifier(quantifier: Quantifier): string {
    match quantifier
    case ZeroOrMore => "*"
    case OneOrMore => "+"
    case ZeroOrOne => "?"
    case Exactly(n) => "{" + PrintFigure(n) + "}"
    case AtLeast(n) => "{" + PrintFigure(n) + ",}"
    case Bounded(n, m) => "{" + PrintFigure(n) + "," + PrintFigure(m) + "}"
  }

  function PrintOp(op: RepetitionOp): string {
    PrintQuantifier(op.quantifier) + if op.lazy then "?" else ""
  }

  function Print(ast: Ast): string {
    match ast
    case Empty => ""
    case Flags(items) => "(?" + PrintFlags(items) + ")"
    case LiteralAst(literal) => literal.written
    case Dot(_) => "."
    case Assertion(_, kind) => PrintAssertion(kind)
    case UnicodeAst(property) => PrintUnicode(property)
    case PerlAst(perl) => PrintPerl(perl.kind, perl.negated)
    case BracketedAst(bracketed) => PrintBracketed(bracketed)
    case Repetition(op, sub) => Print(sub) + PrintOp(op)
    case Group(kind, sub) => GroupOpening(kind) + Print(sub) + ")"
    case Alternation(asts) => PrintAlternatives(asts)
    case Concat(asts) => PrintAll(asts)
  }

  function PrintAll(asts: seq<Ast>): string {
    if asts == [] then "" else Print(asts[0]) + PrintAll(asts[1..])
  }

  /** The alternatives after the first are each written behind a `|`. */
  function PrintAlternatives(asts: seq<Ast>): string {
    if asts == [] then "" else Print(asts[0]) + PrintMore(asts[1..])
  }

  function PrintMore(asts: seq<Ast>): string {
    if asts == [] then "" else "|" + Print(asts[0]) + PrintMore(asts[1..])
  }

  // --- Where each leaf sits ---------------------------------------------

  /** `span` covers `length` characters from `at` on. */
  predicate Covers(span: Span, at: nat, length: nat) {
    span.start == at && span.end == at + length
  }

  ghost predicate LaidItem(item: ClassItem, at: nat) {
    match item
    case NoItem | AsciiItem(_, _) | UnicodeItem(_) => true
    case LiteralItem(literal) => Covers(literal.span, at, |literal.written|)
    case RangeItem(lo, hi) =>
      && Covers(lo.span, at, |lo.written|)
      && Covers(hi.span, at + |lo.written| + 1, |hi.written|)
    case PerlItem(perl) => Covers(perl.span, at, 2)
    case BracketedItem(bracketed) => LaidBracketed(bracketed, at)
    case UnionItem(items) => LaidItems(items, at)
  }

  ghost predicate LaidItems(items: seq<ClassItem>, at: nat) {
    items == [] || (LaidItem(items[0], at) && LaidItems(items[1..], at + |PrintItem(items[0])|))
  }

  ghost predicate LaidSet(members: ClassSet, at: nat) {
    match members
    case ItemSet(item) => LaidItem(item, at)
    case BinarySet(op, lhs, rhs) => LaidSet(lhs, at) && LaidSet(rhs, at + |PrintSet(lhs)| + |PrintSetOp(op)|)
  }

  ghost predicate LaidBracketed(bracketed: Bracketed, at: nat) {
    LaidSet(bracketed.members, at + |Opening(bracketed)|)
  }

  /** Every leaf span of `ast` is where `ast`, written from offset `at` on, puts
      the leaf. */
  ghost predicate Laid(ast: Ast, at: nat) {
    match ast
    case Empty | Flags(_) | UnicodeAst(_) => true
    case LiteralAst(literal) => Covers(literal.span, at, |literal.written|)
    case Dot(span) => Covers(span, at, 1)
    case Assertion(span, kind) => Covers(span, at, |PrintAssertion(kind)|)
    case PerlAst(perl) => Covers(perl.span, at, 2)
    case BracketedAst(bracketed) => LaidBracketed(bracketed, at)
    case Repetition(_, sub) => Laid(sub, at)
    case Group(kind, sub) => Laid(sub, at + |GroupOpening(kind)|)
    case Alternation(asts) => LaidAlternatives(asts, at)
    case Concat(asts) => LaidAll(asts, at)
  }

  ghost predicate LaidAll(asts: seq<Ast>, at: nat) {
    asts == [] || (Laid(asts[0], at) && LaidAll(asts[1..], at + |Print(asts[0])|))
  }

  ghost predicate LaidAlternatives(asts: seq<Ast>, at: nat) {
    asts == [] || (Laid(asts[0], at) && LaidMore(asts[1..], at + |Print(asts[0])|))
  }

  ghost predicate LaidMore(asts: seq<Ast>, at: nat) {
    asts == [] || (Laid(asts[0], at + 1) && LaidMore(asts[1..], at + 1 + |Print(asts[0])|))
  }

  // --- What the parser reads --------------------------------------------

  predicate IsHexDigit(c: char) {
    '0' <= c <= '9' || 'a' <= c <= 'f' || 'A' <= c <= 'F'
  }

  function HexDigitValue(c: char): nat
    requires IsHexDigit(c)
  {
    if c <= '9' then c as int - '0' as int
    else if c <= 'F' then c as int - 'A' as int + 10
    else c as int - 'a' as int + 10
  }

  predicate AllHex(digits: string) {
    forall k :: 0 <= k < |digits| ==> IsHexDigit(digits[k])
  }

  function HexValue(digits: string): nat
    requires AllHex(digits)
  {
    if digits == "" then 0
    else HexValue(digits[..|digits| - 1]) * 16 + HexDigitValue(digits[|digits| - 1])
  }

  predicate AllOctal(digits: string) {
    forall k :: 0 <= k < |digits| ==> '0' <= digits[k] <= '7'
  }

  function OctalValue(digits: string): nat
    requires AllOctal(digits)
  {
    if digits == "" then 0
    else OctalValue(digits[..|digits| - 1]) * 8 + (digits[|digits| - 1] as int - '0' as int)
  }

  function HexLetter(hex: HexKind): char {
    match hex
    case X => 'x'
    case UnicodeShort => 'u'
    case UnicodeLong => 'U'
  }

  function HexWidth(hex: HexKind): nat {
    match hex
    case X => 2
    case UnicodeShort => 4
    case UnicodeLong => 8
  }

  /** A special escape's letter, and the character it names. */
  function SpecialEscape(special: SpecialKind): (char, char) {
    match special
    case Bell => ('a', '\U{0007}')
    case FormFeed => ('f', '\U{000C}')
    case Tab => ('t', '\U{0009}')
    case LineFeed => ('n', '\U{000A}')
    case CarriageReturn => ('r', '\U{000D}')
    case VerticalTab => ('v', '\U{000B}')
    case Space => (' ', ' ')
  }

  predicate IsAsciiAlphanumeric(c: char) {
    '0' <= c <= '9' || 'A' <= c <= 'Z' || 'a' <= c <= 'z'
  }

  /** What the parser never reads as itself: outside a class its operators, and
      inside one the backslash. Where a class reads `[` and `]` is for
      `EngineMembers` and `SpelledBracketed` to say. */
  predicate NeverVerbatim(c: char, inClass: bool) {
    if inClass then c == '\\' else c in "\\.+*?()|[{^$"
  }

  /** `literal.written` is a spelling the engine's parser reads as a literal of
      this kind standing for `literal.c`. */
  predicate SpelledLiteral(literal: Literal, inClass: bool) {
    var w := literal.written;
    match literal.kind
    case Verbatim => w == [literal.c] && !NeverVerbatim(literal.c, inClass)
    case Meta | Superfluous =>
      w == ['\\', literal.c] && !IsAsciiAlphanumeric(literal.c) && literal.c as int < 128
    case Octal =>
      2 <= |w| <= 4 && w[0] == '\\' && AllOctal(w[1..]) && OctalValue(w[1..]) == literal.c as int
    case HexFixed(hex) =>
      && |w| == 2 + HexWidth(hex) && w[0] == '\\' && w[1] == HexLetter(hex)
      && AllHex(w[2..]) && HexValue(w[2..]) == literal.c as int
    case HexBrace(hex) =>
      && |w| >= 5 && w[0] == '\\' && w[1] == HexLetter(hex) && w[2] == '{' && w[|w| - 1] == '}'
      && AllHex(w[3..|w| - 1]) && HexValue(w[3..|w| - 1]) == literal.c as int
    case Special(special) =>
      w == ['\\', SpecialEscape(special).0] && literal.c == SpecialEscape(special).1
  }

  // --- What the parser reads a class as ---------------------------------

  /** What a class is written in: single characters, and the escapes and classes
      within it that are no single character. */
  datatype Atom = Character(literal: Literal) | Compound(item: ClassItem)

  /** The `-` in the middle of a range. No span of it is recorded. */
  function Hyphen(): Atom {
    Character(Literal(Span(0, 0), Verbatim, "-", '-'))
  }

  /** `atom` is `c`, written as itself. */
  predicate IsBare(atom: Atom, c: char) {
    atom.Character? && atom.literal.written == [c]
  }

  function ItemAtoms(item: ClassItem): seq<Atom> {
    match item
    case NoItem => []
    case LiteralItem(literal) => [Character(literal)]
    case RangeItem(lo, hi) => [Character(lo), Hyphen(), Character(hi)]
    case UnionItem(items) => Atoms(items)
    case _ => [Compound(item)]
  }

  function Atoms(items: seq<ClassItem>): seq<Atom> {
    if items == [] then [] else ItemAtoms(items[0]) + Atoms(items[1..])
  }

  function PrintAtom(atom: Atom): string {
    match atom
    case Character(literal) => literal.written
    case Compound(item) => PrintItem(item)
  }

  function PrintAtoms(atoms: seq<Atom>): string {
    if atoms == [] then "" else PrintAtom(atoms[0]) + PrintAtoms(atoms[1..])
  }

  /** An escape that is no single character, which no range may start or end in. A
      class within a class ends before a range is looked for. */
  predicate MayRange(atom: Atom) {
    atom.Character? || atom.item.PerlItem? || atom.item.UnicodeItem?
  }

  function Member(atom: Atom): ClassItem {
    match atom
    case Character(literal) => LiteralItem(literal)
    case Compound(item) => item
  }

  function Prepended(item: ClassItem, items: Option<seq<ClassItem>>): Option<seq<ClassItem>> {
    match items
    case None => None
    case Some(more) => Some([item] + more)
  }

  /** A class within the class, or a set operation. */
  predicate OpensOther(atoms: seq<Atom>)
    requires atoms != []
  {
    || IsBare(atoms[0], '[')
    || (|atoms| >= 2
        && exists c | c in "-&~" :: IsBare(atoms[0], c) && IsBare(atoms[1], c))
  }

  /** The members the parser reads `atoms` as, its opening hyphens read: `None`
      where it reads a set operation, a class or an error instead. A `-` makes a
      range of what is on either side of it, but before another `-` or at the end. */
  function EngineMembers(atoms: seq<Atom>): Option<seq<ClassItem>> {
    if atoms == [] then Some([])
    else if OpensOther(atoms) then None
    else if |atoms| >= 3 && MayRange(atoms[0]) && IsBare(atoms[1], '-') && !IsBare(atoms[2], '-') then
      if atoms[0].Character? && atoms[2].Character? && atoms[0].literal.c <= atoms[2].literal.c
      then Prepended(RangeItem(atoms[0].literal, atoms[2].literal), EngineMembers(atoms[3..]))
      else None
    else Prepended(Member(atoms[0]), EngineMembers(atoms[1..]))
  }

  /** The same from a class's opening bracket on: every `-` right behind it is
      itself. */
  function EngineClassMembers(atoms: seq<Atom>): Option<seq<ClassItem>> {
    if atoms != [] && IsBare(atoms[0], '-') then Prepended(Member(atoms[0]), EngineClassMembers(atoms[1..]))
    else EngineMembers(atoms)
  }

  /** A union's members, or a lone item. */
  function MembersOf(item: ClassItem): seq<ClassItem> {
    match item
    case NoItem => []
    case UnionItem(items) => items
    case _ => [item]
  }

  /** A union is never in a union, and never of fewer than two. */
  predicate Flat(item: ClassItem) {
    item.UnionItem? ==>
      |item.items| >= 2 && forall k :: 0 <= k < |item.items| ==> !item.items[k].UnionItem? && !item.items[k].NoItem?
  }

  predicate SpelledItem(item: ClassItem) {
    match item
    case NoItem | AsciiItem(_, _) | UnicodeItem(_) | PerlItem(_) => true
    case LiteralItem(literal) => SpelledLiteral(literal, true)
    case RangeItem(lo, hi) => SpelledLiteral(lo, true) && SpelledLiteral(hi, true)
    case BracketedItem(bracketed) => SpelledBracketed(bracketed)
    case UnionItem(items) => forall k :: 0 <= k < |items| ==> SpelledItem(items[k])
  }

  /** A class is the members the parser reads its atoms as. A `]` is itself only
      right behind the opening, and a `^` there would negate the class. The operands
      of a set operation are told apart no further. */
  predicate SpelledBracketed(bracketed: Bracketed) {
    match bracketed.members
    case BinarySet(_, _, _) => SpelledOperands(bracketed.members)
    case ItemSet(item) => SpelledItem(item) && Flat(item) && ReadsAs(bracketed.negated, item)
  }

  predicate ReadsAs(negated: bool, item: ClassItem) {
    var atoms := ItemAtoms(item);
    && atoms != [] && EngineClassMembers(atoms) == Some(MembersOf(item))
    && (negated || !IsBare(atoms[0], '^'))
    && forall k :: 0 < k < |atoms| ==> !IsBare(atoms[k], ']')
  }

  predicate SpelledOperands(members: ClassSet) {
    match members
    case ItemSet(item) => SpelledItem(item)
    case BinarySet(_, lhs, rhs) => SpelledOperands(lhs) && SpelledOperands(rhs)
  }

  // --- What the parser reads a count as ---------------------------------

  const U32_MAX: nat := 0xFFFF_FFFF

  /** `char::is_whitespace`. */
  predicate IsWhitespace(c: char) {
    || '\U{0009}' <= c <= '\U{000D}' || '\U{2000}' <= c <= '\U{200A}'
    || c in {' ', '\U{0085}', '\U{00A0}', '\U{1680}', '\U{2028}', '\U{2029}', '\U{202F}', '\U{205F}', '\U{3000}'}
  }

  predicate AllWhitespace(text: string) {
    forall k :: 0 <= k < |text| ==> IsWhitespace(text[k])
  }

  predicate SpelledFigure(figure: Figure) {
    && AllWhitespace(figure.before) && AllWhitespace(figure.after)
    && Numeral(figure.digits) && Decimal(figure.digits) <= U32_MAX
  }

  /** What a quantifier says, of numbers that are numerals. */
  predicate Says(quantifier: Quantifier, min: nat, max: Option<nat>) {
    match quantifier
    case ZeroOrMore => min == 0 && max == None
    case OneOrMore => min == 1 && max == None
    case ZeroOrOne => min == 0 && max == Some(1)
    case Exactly(n) => Numeral(n.digits) && min == Decimal(n.digits) && max == Some(min)
    case AtLeast(n) => Numeral(n.digits) && min == Decimal(n.digits) && max == None
    case Bounded(n, m) =>
      && Numeral(n.digits) && Numeral(m.digits)
      && min == Decimal(n.digits) && max == Some(Decimal(m.digits)) && min <= max.value
  }

  predicate SpelledOp(op: RepetitionOp) {
    && Says(op.quantifier, op.min, op.max)
    && match op.quantifier
       case ZeroOrMore | OneOrMore | ZeroOrOne => true
       case Exactly(n) => SpelledFigure(n)
       case AtLeast(n) => SpelledFigure(n)
       case Bounded(n, m) => SpelledFigure(n) && SpelledFigure(m)
  }

  // --- What the parser reads a pattern as -------------------------------

  /** The engine's group names hold none of what an ECMA-262 identifier has beyond
      Unicode's: `$` and the two joiners. */
  predicate SpelledGroupName(name: string) {
    forall k :: 0 <= k < |name| ==> name[k] !in {'$', '\U{200C}', '\U{200D}'}
  }

  /** `ast` is as the engine's parser builds its trees: its literals and counts are
      spelled as what they stand for, its classes are the members the parser reads
      them as, and a node that binds more loosely sits below one that binds more
      tightly only inside a group. */
  predicate Spelled(ast: Ast) {
    match ast
    case Empty | Flags(_) | Dot(_) | Assertion(_, _) | UnicodeAst(_) | PerlAst(_) => true
    case LiteralAst(literal) => SpelledLiteral(literal, false)
    case BracketedAst(bracketed) => SpelledBracketed(bracketed)
    case Repetition(op, sub) =>
      && SpelledOp(op)
      && !sub.Empty? && !sub.Alternation? && !sub.Concat? && !sub.Flags? && Spelled(sub)
    case Group(kind, sub) => (kind.CaptureName? ==> SpelledGroupName(kind.name)) && Spelled(sub)
    case Alternation(asts) => forall k :: 0 <= k < |asts| ==> !asts[k].Alternation? && Spelled(asts[k])
    case Concat(asts) =>
      forall k :: 0 <= k < |asts| ==> !asts[k].Alternation? && !asts[k].Concat? && Spelled(asts[k])
  }
}
