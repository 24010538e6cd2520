/** The replacements the translator writes
    (crates/kynos-openapi/src/pattern.rs:38-54 and 192-343), as text and as the
    tree the engine reads that text as, and the splice that puts the texts into
    the source. */
module PatternRewrite {
  import opened PatternSyntax
  import opened Sequences

  /** What is rewritten: a Perl class, `.`, `\b` and `\B`, and `\0`. */
  datatype Construct =
    | PerlConstruct(kind: PerlKind, negated: bool)
    | DotConstruct
    | BoundaryConstruct(negated: bool)
    | NulConstruct

  /** The parts `\s` is written in. */
  datatype Part = Controls | Latin | Wide | Other

  // --- The replacement texts --------------------------------------------

  function Text(construct: Construct): string {
    match construct
    case PerlConstruct(kind, negated) => (if negated then "[^" else "[") + PerlText(kind) + "]"
    case DotConstruct => "[^" + ("\\n" + "\\r" + Braced("2028") + Braced("2029")) + "]"
    case BoundaryConstruct(negated) => if negated then "(?-u:\\B)" else "(?-u:\\b)"
    case NulConstruct => "\\x00"
  }

  function PerlText(kind: PerlKind): string {
    match kind
    case Digit => "0-9"
    case Word => "0-9" + "A-Z" + "a-z" + "_"
    case White => PartText(Controls) + PartText(Latin) + PartText(Wide) + PartText(Other)
  }

  function PartText(part: Part): string {
    match part
    case Controls => "\\t" + "\\n" + Fixed("0B") + Fixed("0C")
    case Latin => "\\r" + " " + Fixed("A0") + Braced("1680")
    case Wide => (Braced("2000") + "-" + Braced("200A")) + Braced("2028") + Braced("2029") + Braced("202F")
    case Other => Braced("205F") + Braced("3000") + Braced("FEFF")
  }

  /** `\xHH` and `\x{HHHH}`. */
  function Fixed(digits: string): string {
    "\\x" + digits
  }

  function Braced(digits: string): string {
    "\\x{" + digits + "}"
  }

  // --- The trees the engine reads them as -------------------------------

  function Plain(c: char): Literal {
    Literal(Span(0, 0), Verbatim, [c], c)
  }

  function Escape(special: SpecialKind): Literal {
    var (letter, c) := SpecialEscape(special);
    Literal(Span(0, 0), Special(special), ['\\', letter], c)
  }

  function Hex2(digits: string, c: char): Literal {
    Literal(Span(0, 0), HexFixed(X), Fixed(digits), c)
  }

  function HexBraced(digits: string, c: char): Literal {
    Literal(Span(0, 0), HexBrace(X), Braced(digits), c)
  }

  function PartItems(part: Part): seq<ClassItem> {
    match part
    case Controls => [
      LiteralItem(Escape(Tab)), LiteralItem(Escape(LineFeed)),
      LiteralItem(Hex2("0B", '\U{000B}')), LiteralItem(Hex2("0C", '\U{000C}'))]
    case Latin => [
      LiteralItem(Escape(CarriageReturn)), LiteralItem(Plain(' ')),
      LiteralItem(Hex2("A0", '\U{00A0}')), LiteralItem(HexBraced("1680", '\U{1680}'))]
    case Wide => [
      RangeItem(HexBraced("2000", '\U{2000}'), HexBraced("200A", '\U{200A}')),
      LiteralItem(HexBraced("2028", '\U{2028}')),
      LiteralItem(HexBraced("2029", '\U{2029}')), LiteralItem(HexBraced("202F", '\U{202F}'))]
    case Other => [
      LiteralItem(HexBraced("205F", '\U{205F}')), LiteralItem(HexBraced("3000", '\U{3000}')),
      LiteralItem(HexBraced("FEFF", '\U{FEFF}'))]
  }

  function PerlItems(kind: PerlKind): ClassItem {
    match kind
    case Digit => RangeItem(Plain('0'), Plain('9'))
    case Word => UnionItem([
      RangeItem(Plain('0'), Plain('9')), RangeItem(Plain('A'), Plain('Z')),
      RangeItem(Plain('a'), Plain('z')), LiteralItem(Plain('_'))])
    case White => UnionItem(PartItems(Controls) + PartItems(Latin) + PartItems(Wide) + PartItems(Other))
  }

  function PerlClass(kind: PerlKind, negated: bool): Bracketed {
    Bracketed(negated, ItemSet(PerlItems(kind)))
  }

  function DotItems(construct: Construct): ClassItem
    requires construct.DotConstruct?
  {
    UnionItem([
      LiteralItem(Escape(LineFeed)), LiteralItem(Escape(CarriageReturn)),
      LiteralItem(HexBraced("2028", '\U{2028}')), LiteralItem(HexBraced("2029", '\U{2029}'))])
  }

  function DotClass(construct: Construct): Bracketed
    requires construct.DotConstruct?
  {
    Bracketed(true, ItemSet(DotItems(construct)))
  }

  function AsciiBoundary(span: Span, kind: AssertionKind): Ast {
    Group(NonCapturing([Negation, UnicodeFlag]), Assertion(span, kind))
  }

  lemma {:induction false} Unfold(items: seq<ClassItem>)
    requires items != []
    ensures PrintItems(items) == PrintItem(items[0]) + PrintItems(items[1..])
  {
  }

  lemma {:induction false} PrintsThree(items: seq<ClassItem>)
    requires |items| == 3
    ensures PrintItems(items) == PrintItem(items[0]) + PrintItem(items[1]) + PrintItem(items[2])
  {
    assert items[1..][1..] == items[2..] && items[2..][1..] == [];
    Unfold(items);
    Unfold(items[1..]);
    Unfold(items[2..]);
    Associative(PrintItem(items[0]), PrintItem(items[1]), PrintItem(items[2]));
  }

  lemma {:induction false} PrintsFour(items: seq<ClassItem>)
    requires |items| == 4
    ensures PrintItems(items) == PrintItem(items[0]) + PrintItem(items[1]) + PrintItem(items[2]) + PrintItem(items[3])
  {
    Unfold(items);
    PrintsThree(items[1..]);
    Associative(PrintItem(items[0]), PrintItem(items[1]), PrintItem(items[2]));
    Associative(PrintItem(items[0]), PrintItem(items[1]) + PrintItem(items[2]), PrintItem(items[3]));
  }

  lemma {:induction false} PrintItemsConcat(a: seq<ClassItem>, b: seq<ClassItem>)
    ensures PrintItems(a + b) == PrintItems(a) + PrintItems(b)
  {
    if a == [] {
      assert a + b == b;
    } else {
      var ab := a + b;
      assert ab[0] == a[0] && ab[1..] == a[1..] + b;
      PrintItemsConcat(a[1..], b);
      Unfold(a);
      Unfold(ab);
      Associative(PrintItem(a[0]), PrintItems(a[1..]), PrintItems(b));
    }
  }

  lemma {:induction false} PartPrints(part: Part)
    ensures PrintItems(PartItems(part)) == PartText(part)
  {
    var items := PartItems(part);
    match part
    case Controls => PrintsFour(items);
    case Latin => PrintsFour(items);
    case Wide => PrintsFour(items);
    case Other => PrintsThree(items);
  }

  lemma {:induction false} SpacePrints()
    ensures PrintItem(PerlItems(White)) == PerlText(White)
  {
    hide PrintItems, PartText, PartItems;
    var controls, latin, wide, other := PartItems(Controls), PartItems(Latin), PartItems(Wide), PartItems(Other);
    PartPrints(Controls); PartPrints(Latin); PartPrints(Wide); PartPrints(Other);
    PrintItemsConcat(controls, latin);
    PrintItemsConcat(controls + latin, wide);
    PrintItemsConcat(controls + latin + wide, other);
  }

  lemma {:induction false} PerlItemsPrint(kind: PerlKind)
    ensures PrintItem(PerlItems(kind)) == PerlText(kind)
  {
    match kind
    case Digit =>
    case Word => PrintsFour(PerlItems(Word).items);
    case White => SpacePrints();
  }

  /** Each replacement text of a Perl class is how its tree is written. */
  lemma {:induction false} PerlClassPrints(kind: PerlKind, negated: bool)
    ensures PrintBracketed(PerlClass(kind, negated)) == Text(PerlConstruct(kind, negated))
  {
    PerlItemsPrint(kind);
    assert PrintSet(PerlClass(kind, negated).members) == PerlText(kind);
  }

  lemma {:induction false} DotClassPrints()
    ensures PrintBracketed(DotClass(DotConstruct)) == Text(DotConstruct)
  {
    var item := DotItems(DotConstruct);
    PrintsFour(item.items);
    assert PrintSet(ItemSet(item)) == "\\n" + "\\r" + Braced("2028") + Braced("2029");
  }

  lemma {:induction false} AsciiBoundaryPrints(span: Span)
    ensures Print(AsciiBoundary(span, WordBoundary)) == Text(BoundaryConstruct(false))
    ensures Print(AsciiBoundary(span, NotWordBoundary)) == Text(BoundaryConstruct(true))
  {
    assert [Negation, UnicodeFlag][1..] == [UnicodeFlag];
    assert PrintFlags([UnicodeFlag]) == "u";
  }
}
