/** The translation preserves meaning: the engine reads the rewritten tree as
    ECMA-262 reads the source tree, and the rewritten tree is spelled as the
    engine's parser reads it. */
module PatternMeaning {
  import opened PatternSyntax
  import opened PatternDialects
  import opened PatternClasses
  import opened PatternAgreement
  import opened PatternRewrite
  import opened PatternSplice
  import opened Options

  // --- Characters and classes -------------------------------------------

  lemma {:induction false} LiteralMeansItself(literal: Literal, rest: string, inClass: bool)
    requires SpelledLiteral(literal, inClass) && EcmaReads(literal.written, rest, literal.c, inClass)
    ensures EcmaCharacter(literal.written, inClass) == Some(RewriteLiteral(literal).c)
    ensures SpelledLiteral(RewriteLiteral(literal), inClass)
  {
    if literal.kind == Octal {
      OctalIsNul(literal, inClass);
      var written := Text(NulConstruct);
      assert written[2..] == "00";
      HexTwo('0', '0');
    }
  }

  /** The one octal escape ECMA-262 reads is `\0`. */
  lemma {:induction false} OctalIsNul(literal: Literal, inClass: bool)
    requires literal.kind == Octal && SpelledLiteral(literal, inClass)
    ensures EcmaCharacter(literal.written, inClass).Some? <==> literal.written == "\\0"
    ensures literal.written == "\\0" ==> literal.c == '\U{0000}'
  {
    var w := literal.written;
    if |w| == 2 {
      assert w == ['\\', w[1]];
      var digits := w[1..];
      assert digits == [w[1]] && digits[..0] == "";
      assert OctalValue(digits) == w[1] as int - '0' as int;
    } else {
      assert AllOctal(w[1..]);
      assert '0' <= w[1..][0] <= '7';
    }
  }

  lemma {:induction false} HexTwo(a: char, b: char)
    requires IsHexDigit(a) && IsHexDigit(b)
    ensures HexValue([a, b]) == HexDigitValue(a) * 16 + HexDigitValue(b)
  {
    assert [a, b][..1] == [a] && [a][..0] == [];
    assert HexValue([a]) == HexDigitValue(a);
  }

  lemma {:induction false} HexFour(a: char, b: char, c: char, d: char)
    requires IsHexDigit(a) && IsHexDigit(b) && IsHexDigit(c) && IsHexDigit(d)
    ensures HexValue([a, b, c, d])
      == HexDigitValue(a) * 4096 + HexDigitValue(b) * 256 + HexDigitValue(c) * 16 + HexDigitValue(d)
  {
    assert [a, b, c, d][..3] == [a, b, c] && [a, b, c][..2] == [a, b];
    HexTwo(a, b);
    assert HexValue([a, b, c]) == HexValue([a, b]) * 16 + HexDigitValue(c);
  }

  /** A `\x{...}` of the replacement texts names the character beside it. */
  lemma {:induction false} BracedSpelled(digits: string, c: char)
    requires |digits| == 4 && AllHex(digits)
    requires HexDigitValue(digits[0]) * 4096 + HexDigitValue(digits[1]) * 256 + HexDigitValue(digits[2]) * 16
      + HexDigitValue(digits[3]) == c as int
    ensures SpelledLiteral(HexBraced(digits, c), true) && IsReady(LiteralItem(HexBraced(digits, c)))
  {
    var w := HexBraced(digits, c).written;
    assert w[3..|w| - 1] == digits;
    assert digits == [digits[0], digits[1], digits[2], digits[3]];
    HexFour(digits[0], digits[1], digits[2], digits[3]);
  }

  lemma {:induction false} Hex2Spelled(digits: string, c: char)
    requires |digits| == 2 && AllHex(digits)
    requires HexDigitValue(digits[0]) * 16 + HexDigitValue(digits[1]) == c as int
    ensures IsReady(LiteralItem(Hex2(digits, c)))
  {
    var w := Hex2(digits, c).written;
    assert w[2..] == digits == [digits[0], digits[1]];
    HexTwo(digits[0], digits[1]);
  }

  /** No character of a replacement class is one the parser may read as part of the
      class's own syntax. */
  predicate IsPlain(literal: Literal) {
    |literal.written| == 1 ==> literal.written[0] !in "-&~[]^"
  }

  predicate PlainItem(item: ClassItem) {
    match item
    case LiteralItem(literal) => IsPlain(literal)
    case RangeItem(lo, hi) => IsPlain(lo) && IsPlain(hi) && lo.c <= hi.c
    case _ => false
  }

  predicate IsReady(item: ClassItem) {
    SpelledItem(item) && PlainItem(item)
  }

  ghost predicate AllReady(items: seq<ClassItem>) {
    forall k :: 0 <= k < |items| ==> IsReady(items[k])
  }

  lemma {:induction false} PlainIsRead(items: seq<ClassItem>)
    requires forall k :: 0 <= k < |items| ==> PlainItem(items[k])
    ensures EngineMembers(Atoms(items)) == Some(items)
    ensures items != [] ==> Atoms(items) != [] && !IsBare(Atoms(items)[0], '-') && !IsBare(Atoms(items)[0], '^')
    ensures forall k :: 0 <= k < |Atoms(items)| ==> !IsBare(Atoms(items)[k], ']')
  {
    if items != [] {
      hide EngineMembers, IsBare, ItemAtoms, PlainItem;
      PlainIsRead(items[1..]);
      PlainIsAhead(items[0], Atoms(items[1..]));
      assert [items[0]] + items[1..] == items;
    }
  }

  /** A plain member is read ahead of whatever begins with no hyphen. */
  lemma {:induction false} PlainIsAhead(item: ClassItem, more: seq<Atom>)
    requires PlainItem(item) && (more != [] ==> !IsBare(more[0], '-'))
    ensures var first := ItemAtoms(item);
      && EngineMembers(first + more) == Prepended(item, EngineMembers(more))
      && first != [] && !IsBare(first[0], '-') && !IsBare(first[0], '^')
      && forall k :: 0 <= k < |first| ==> !IsBare(first[k], ']')
  {
    var atoms := ItemAtoms(item) + more;
    assert !OpensOther(atoms);
    if item.RangeItem? {
      assert atoms[3..] == more;
    } else {
      assert atoms[1..] == more;
      assert |atoms| >= 2 ==> !IsBare(atoms[1], '-');
    }
  }

  /** So a class of plain members is one the parser builds. */
  lemma {:induction false} PlainClassIsRead(negated: bool, items: seq<ClassItem>)
    requires AllReady(items) && |items| >= 2
    ensures SpelledBracketed(Bracketed(negated, ItemSet(UnionItem(items))))
  {
    PlainIsRead(items);
    assert Flat(UnionItem(items));
  }

  lemma {:induction false} ThreeReady(items: seq<ClassItem>)
    requires |items| == 3 && IsReady(items[0]) && IsReady(items[1]) && IsReady(items[2])
    ensures AllReady(items)
  {
  }

  lemma {:induction false} FourReady(items: seq<ClassItem>)
    requires |items| == 4
    requires IsReady(items[0]) && IsReady(items[1]) && IsReady(items[2]) && IsReady(items[3])
    ensures AllReady(items)
  {
  }

  lemma {:induction false} ControlsSpelled()
    ensures AllReady(PartItems(Controls))
  {
    Hex2Spelled("0B", '\U{000B}'); Hex2Spelled("0C", '\U{000C}');
    FourReady(PartItems(Controls));
  }

  lemma {:induction false} LatinSpelled()
    ensures AllReady(PartItems(Latin))
  {
    Hex2Spelled("A0", '\U{00A0}'); BracedSpelled("1680", '\U{1680}');
    FourReady(PartItems(Latin));
  }

  lemma {:induction false} RangeSpelled()
    ensures IsReady(RangeItem(HexBraced("2000", '\U{2000}'), HexBraced("200A", '\U{200A}')))
  {
    BracedSpelled("2000", '\U{2000}'); BracedSpelled("200A", '\U{200A}');
  }

  lemma {:induction false} SeparatorsSpelled()
    ensures IsReady(LiteralItem(HexBraced("2028", '\U{2028}')))
    ensures IsReady(LiteralItem(HexBraced("2029", '\U{2029}')))
  {
    BracedSpelled("2028", '\U{2028}'); BracedSpelled("2029", '\U{2029}');
  }

  lemma {:induction false} NarrowSpelled()
    ensures IsReady(LiteralItem(HexBraced("202F", '\U{202F}')))
  {
    BracedSpelled("202F", '\U{202F}');
  }

  lemma {:induction false} WideSpelled()
    ensures AllReady(PartItems(Wide))
  {
    hide SpelledItem, SpelledLiteral, AllHex;
    RangeSpelled(); SeparatorsSpelled(); NarrowSpelled();
    FourReady(PartItems(Wide));
  }

  lemma {:induction false} OtherSpelled()
    ensures AllReady(PartItems(Other))
  {
    BracedSpelled("205F", '\U{205F}'); BracedSpelled("3000", '\U{3000}'); BracedSpelled("FEFF", '\U{FEFF}');
    ThreeReady(PartItems(Other));
  }

  lemma {:induction false} ReadyConcat(a: seq<ClassItem>, b: seq<ClassItem>)
    requires AllReady(a) && AllReady(b)
    ensures AllReady(a + b)
  {
  }

  lemma {:induction false} SpaceSpelled()
    ensures AllReady(PerlItems(White).items)
  {
    ControlsSpelled(); LatinSpelled(); WideSpelled(); OtherSpelled();
    hide AllReady, PartItems;
    ReadyConcat(PartItems(Controls), PartItems(Latin));
    ReadyConcat(PartItems(Controls) + PartItems(Latin), PartItems(Wide));
    ReadyConcat(PartItems(Controls) + PartItems(Latin) + PartItems(Wide), PartItems(Other));
  }

  lemma {:induction false} PerlClassSpelled(kind: PerlKind, negated: bool)
    ensures SpelledBracketed(PerlClass(kind, negated))
  {
    hide AllReady, SpelledBracketed, PartItems;
    match kind
    case Digit => PlainRangeIsRead(negated, Plain('0'), Plain('9'));
    case Word =>
      WordSpelled();
      PlainClassIsRead(negated, PerlItems(Word).items);
    case White =>
      SpaceSpelled();
      SpaceIsMany();
      PlainClassIsRead(negated, PerlItems(White).items);
  }

  lemma {:induction false} WordSpelled()
    ensures AllReady(PerlItems(Word).items)
  {
  }

  lemma {:induction false} SpaceIsMany()
    ensures |PerlItems(White).items| >= 2
  {
  }

  lemma {:induction false} PlainRangeIsRead(negated: bool, lo: Literal, hi: Literal)
    requires IsReady(RangeItem(lo, hi))
    ensures SpelledBracketed(Bracketed(negated, ItemSet(RangeItem(lo, hi))))
  {
    var item := RangeItem(lo, hi);
    PlainIsRead([item]);
    FlatMembers(item);
    assert IsReady(item) && SpelledItem([item][0]);
  }

  lemma {:induction false} DotClassSpelled()
    ensures SpelledBracketed(DotClass(DotConstruct))
  {
    SeparatorsSpelled();
    var items := DotItems(DotConstruct).items;
    FourReady(items);
    PlainClassIsRead(true, items);
  }

  // --- The rewritten classes hold ECMA-262's characters ------------------

  lemma {:induction false} AnyOfConcat(a: seq<ClassItem>, b: seq<ClassItem>, tables: Tables, unicode: bool, c: char)
    ensures EngineAny(a + b, tables, unicode, c)
      <==> EngineAny(a, tables, unicode, c) || EngineAny(b, tables, unicode, c)
  {
    if a == [] {
      assert a + b == b;
    } else {
      var ab := a + b;
      assert ab[0] == a[0] && ab[1..] == a[1..] + b;
      AnyOfConcat(a[1..], b, tables, unicode, c);
    }
  }

  lemma {:induction false} AnyOfThree(items: seq<ClassItem>, tables: Tables, unicode: bool, c: char)
    requires |items| == 3
    ensures EngineAny(items, tables, unicode, c) <==>
      EngineItem(items[0], tables, unicode, c) || EngineItem(items[1], tables, unicode, c)
        || EngineItem(items[2], tables, unicode, c)
  {
    assert items[1..][1..] == items[2..] && items[2..][1..] == [];
    assert EngineAny(items[2..], tables, unicode, c) <==> EngineItem(items[2], tables, unicode, c);
  }

  lemma {:induction false} AnyOfFour(items: seq<ClassItem>, tables: Tables, unicode: bool, c: char)
    requires |items| == 4
    ensures EngineAny(items, tables, unicode, c) <==>
      || EngineItem(items[0], tables, unicode, c) || EngineItem(items[1], tables, unicode, c)
      || EngineItem(items[2], tables, unicode, c) || EngineItem(items[3], tables, unicode, c)
  {
    AnyOfThree(items[1..], tables, unicode, c);
  }

  /** What each part of the rewritten `\s` holds. */
  predicate PartHolds(part: Part, c: char) {
    match part
    case Controls => c in {'\U{0009}', '\U{000A}', '\U{000B}', '\U{000C}'}
    case Latin => c in {'\U{000D}', ' ', '\U{00A0}', '\U{1680}'}
    case Wide => '\U{2000}' <= c <= '\U{200A}' || c in {'\U{2028}', '\U{2029}', '\U{202F}'}
    case Other => c in {'\U{205F}', '\U{3000}', '\U{FEFF}'}
  }

  lemma {:induction false} PartItemsHold(part: Part, tables: Tables, unicode: bool, c: char)
    ensures EngineAny(PartItems(part), tables, unicode, c) <==> PartHolds(part, c)
  {
    match part
    case Other => AnyOfThree(PartItems(part), tables, unicode, c);
    case _ => AnyOfFour(PartItems(part), tables, unicode, c);
  }

  lemma {:induction false} SpaceHolds(tables: Tables, unicode: bool, c: char)
    ensures EngineItem(PerlItems(White), tables, unicode, c) <==> EcmaPerl(White, c)
  {
    var controls, latin, wide, other := PartItems(Controls), PartItems(Latin), PartItems(Wide), PartItems(Other);
    PartItemsHold(Controls, tables, unicode, c);
    PartItemsHold(Latin, tables, unicode, c);
    PartItemsHold(Wide, tables, unicode, c);
    PartItemsHold(Other, tables, unicode, c);
    AnyOfConcat(controls, latin, tables, unicode, c);
    AnyOfConcat(controls + latin, wide, tables, unicode, c);
    AnyOfConcat(controls + latin + wide, other, tables, unicode, c);
  }

  lemma {:induction false} PerlItemsHold(kind: PerlKind, tables: Tables, unicode: bool, c: char)
    ensures EngineItem(PerlItems(kind), tables, unicode, c) <==> EcmaPerl(kind, c)
  {
    match kind
    case Digit =>
    case Word => AnyOfFour(PerlItems(Word).items, tables, unicode, c);
    case White => SpaceHolds(tables, unicode, c);
  }

  /** `[0-9]` and the rest are exactly ECMA-262's `\d`, `\w`, `\s` and their
      complements, whatever the engine's own are. */
  lemma {:induction false} PerlClassHolds(kind: PerlKind, negated: bool, tables: Tables, unicode: bool, c: char)
    ensures EngineClass(PerlClass(kind, negated), tables, unicode, c) <==> (negated != EcmaPerl(kind, c))
  {
    PerlItemsHold(kind, tables, unicode, c);
  }

  lemma {:induction false} DotClassHolds(tables: Tables, unicode: bool, c: char)
    ensures EngineClass(DotClass(DotConstruct), tables, unicode, c) <==> !LineTerminator(c)
  {
    var item := DotItems(DotConstruct);
    AnyOfFour(item.items, tables, unicode, c);
    assert EngineItem(item, tables, unicode, c) <==> LineTerminator(c);
  }

  /** A member holds, rewritten and read by the engine, what ECMA-262 has it hold. */
  lemma {:induction false} MemberMeansItself(item: ClassItem, rest: string, names: Names, tables: Tables, c: char)
    requires IsMember(item) && SpelledItem(item) && EcmaSpellsItem(item, rest, names)
    ensures EngineItem(RewriteItem(item), tables, true, c) <==> MemberHolds(AsMember(item), tables, c)
  {
    match item
    case LiteralItem(literal) => LiteralMeansItself(literal, rest, true);
    case RangeItem(lo, hi) =>
      LiteralMeansItself(lo, "-" + hi.written + rest, true);
      LiteralMeansItself(hi, rest, true);
    case PerlItem(perl) => PerlClassHolds(perl.kind, perl.negated, tables, true, c);
    case UnicodeItem(_) =>
  }

  lemma {:induction false} MembersMeanThemselves(
      items: seq<ClassItem>, rest: string, names: Names, tables: Tables, c: char)
    requires AreMembers(items) && EcmaSpellsItems(items, rest, names)
    requires forall k :: 0 <= k < |items| ==> SpelledItem(items[k])
    ensures EngineAny(RewriteItems(items), tables, true, c) <==> AnyHolds(AsMembers(items), tables, c)
  {
    if items != [] {
      hide EngineItem, RewriteItem, MemberHolds, AsMember, SpelledItem, EcmaSpellsItem;
      var first, more := items[0], items[1..];
      MemberMeansItself(first, PrintItems(more) + rest, names, tables, c);
      MembersMeanThemselves(more, rest, names, tables, c);
      assert RewriteItems(items)[1..] == RewriteItems(more) && AsMembers(items)[1..] == AsMembers(more);
    }
  }

  lemma {:induction false} RewrittenMembers(item: ClassItem, tables: Tables, c: char)
    ensures EngineItem(RewriteItem(item), tables, true, c)
      <==> EngineAny(RewriteItems(MembersOf(item)), tables, true, c)
  {
    if !item.NoItem? && !item.UnionItem? {
      assert [item][1..] == [] && RewriteItems([item]) == [RewriteItem(item)] && [RewriteItem(item)][1..] == [];
    }
  }

  /** A class ECMA-262 reads as the engine does holds the same characters for both. */
  lemma {:induction false} ClassHolds(bracketed: Bracketed, rest: string, names: Names, tables: Tables, c: char)
    requires SpelledBracketed(bracketed) && bracketed.members.ItemSet?
    requires EcmaSpellsItem(bracketed.members.item, rest, names) && EcmaReadsClass(bracketed.members.item)
    ensures EngineClass(RewriteBracketed(bracketed), tables, true, c) <==> EcmaClass(bracketed, tables, c)
  {
    var item := bracketed.members.item;
    hide EngineClassMembers, EcmaMembers, AsMembers, OpensInRange, AnyHolds, AllMayRange, EcmaReadsClass, EngineItem,
      RewriteItem, EngineAny;
    ClassIsRead(bracketed, rest, names);
    ClassAgreesIff(bracketed, rest, names);
    SameCharacters(ItemAtoms(item), MembersOf(item), tables, c);
    SpelledMembers(item, rest, names);
    MembersMeanThemselves(MembersOf(item), rest, names, tables, c);
    RewrittenMembers(item, tables, c);
  }

  // --- Matching ---------------------------------------------------------

  /** `ast` and its rewriting match alike from anywhere to anywhere. */
  ghost predicate SameMatches(ast: Ast, tables: Tables, s: string) {
    forall i: nat, j: nat | i <= j <= |s| ::
      EngineMatch(Rewrite(ast), tables, DEFAULT_FLAGS, s, i, j) <==> EcmaMatch(ast, tables, s, i, j)
  }

  /** Every repetition ECMA-262 makes, the engine makes, in between `min` and
      `max` iterations. */
  lemma {:induction false} RepeatHasCount(
      sub: Ast, min: nat, max: Option<nat>, tables: Tables, s: string, i: nat, j: nat)
    returns (n: nat)
    requires i <= j <= |s| && SameMatches(sub, tables, s)
    requires EcmaRepeat(sub, min, max, tables, s, i, j) && (max.Some? ==> min <= max.value)
    ensures Within(n, min, max) && EngineTimes(Rewrite(sub), n, tables, DEFAULT_FLAGS, s, i, j)
    decreases min, j - i
  {
    if max == Some(0) || (min == 0 && i == j) {
      n := 0;
    } else {
      var min2 := if min == 0 then 0 else min - 1;
      var k: nat :| i <= k <= j && EcmaMatch(sub, tables, s, i, k) && !(min == 0 && k == i)
                    && EcmaRepeat(sub, min2, OneFewer(max), tables, s, k, j);
      var rest := RepeatHasCount(sub, min2, OneFewer(max), tables, s, k, j);
      n := rest + 1;
      assert EngineMatch(Rewrite(sub), tables, DEFAULT_FLAGS, s, i, k);
    }
  }

  /** Every count of iterations the engine makes, ECMA-262 makes without the ones
      past `min` that consume nothing. */
  lemma {:induction false} CountHasRepeat(
      sub: Ast, n: nat, min: nat, max: Option<nat>, tables: Tables, s: string, i: nat, j: nat)
    requires i <= j <= |s| && SameMatches(sub, tables, s)
    requires Within(n, min, max) && EngineTimes(Rewrite(sub), n, tables, DEFAULT_FLAGS, s, i, j)
    ensures EcmaRepeat(sub, min, max, tables, s, i, j)
    decreases n
  {
    if n > 0 {
      var k: nat :| i <= k <= j && EngineMatch(Rewrite(sub), tables, DEFAULT_FLAGS, s, i, k)
                    && EngineTimes(Rewrite(sub), n - 1, tables, DEFAULT_FLAGS, s, k, j);
      assert EcmaMatch(sub, tables, s, i, k);
      if min == 0 && k == i {
        CountHasRepeat(sub, n - 1, 0, max, tables, s, i, j);
      } else {
        CountHasRepeat(sub, n - 1, if min == 0 then 0 else min - 1, OneFewer(max), tables, s, k, j);
      }
    }
  }

  lemma {:induction false} RepetitionMatches(op: RepetitionOp, sub: Ast, tables: Tables, s: string)
    requires SameMatches(sub, tables, s) && (op.max.Some? ==> op.min <= op.max.value)
    ensures SameMatches(Repetition(op, sub), tables, s)
  {
    forall i: nat, j: nat | i <= j <= |s|
      ensures EngineRepeat(Rewrite(sub), op.min, op.max, tables, DEFAULT_FLAGS, s, i, j)
        <==> EcmaRepeat(sub, op.min, op.max, tables, s, i, j)
    {
      if EcmaRepeat(sub, op.min, op.max, tables, s, i, j) {
        var n := RepeatHasCount(sub, op.min, op.max, tables, s, i, j);
      }
      if EngineRepeat(Rewrite(sub), op.min, op.max, tables, DEFAULT_FLAGS, s, i, j) {
        var n: nat :| Within(n, op.min, op.max) && EngineTimes(Rewrite(sub), n, tables, DEFAULT_FLAGS, s, i, j);
        CountHasRepeat(sub, n, op.min, op.max, tables, s, i, j);
      }
    }
  }

  lemma {:induction false} AlternationMatches(asts: seq<Ast>, tables: Tables, s: string)
    requires forall k :: 0 <= k < |asts| ==> SameMatches(asts[k], tables, s)
    ensures SameMatches(Alternation(asts), tables, s)
  {
    forall i: nat, j: nat | i <= j <= |s|
      ensures EngineMatch(Alternation(RewriteAll(asts)), tables, DEFAULT_FLAGS, s, i, j)
        <==> EcmaMatch(Alternation(asts), tables, s, i, j)
    {
      forall k | 0 <= k < |asts|
        ensures EngineMatch(RewriteAll(asts)[k], tables, DEFAULT_FLAGS, s, i, j)
          <==> EcmaMatch(asts[k], tables, s, i, j)
      {
        assert SameMatches(asts[k], tables, s);
      }
    }
  }

  lemma {:induction false} GroupMatches(kind: GroupKind, sub: Ast, names: Names, tables: Tables, s: string)
    requires EcmaGroup(kind, names) && SameMatches(sub, tables, s)
    ensures SameMatches(Group(kind, sub), tables, s)
  {
    assert ApplyFlags([], true, DEFAULT_FLAGS) == DEFAULT_FLAGS;
  }

  ghost predicate SameAll(asts: seq<Ast>, tables: Tables, s: string) {
    forall i: nat, j: nat | i <= j <= |s| ::
      EngineAll(RewriteAll(asts), tables, DEFAULT_FLAGS, s, i, j) <==> EcmaAll(asts, tables, s, i, j)
  }

  lemma {:induction false} ConcatMatches(asts: seq<Ast>, tables: Tables, s: string)
    requires SameAll(asts, tables, s)
    ensures SameMatches(Concat(asts), tables, s)
  {
  }

  lemma {:induction false} LeafMatches(ast: Ast, rest: string, names: Names, tables: Tables, s: string)
    requires Spelled(ast) && EcmaAdmits(ast, rest, names)
    requires !ast.Repetition? && !ast.Group? && !ast.Alternation? && !ast.Concat?
    ensures SameMatches(ast, tables, s)
  {
    forall i: nat, j: nat | i <= j <= |s|
      ensures EngineMatch(Rewrite(ast), tables, DEFAULT_FLAGS, s, i, j) <==> EcmaMatch(ast, tables, s, i, j)
    {
      match ast
      case LiteralAst(literal) => LiteralMeansItself(literal, rest, false);
      case Dot(_) => if j == i + 1 { DotClassHolds(tables, true, s[i]); }
      case PerlAst(perl) => if j == i + 1 { PerlClassHolds(perl.kind, perl.negated, tables, true, s[i]); }
      case BracketedAst(bracketed) =>
        if j == i + 1 { ClassHolds(bracketed, "]" + rest, names, tables, s[i]); }
      case Assertion(span, kind) => AssertionMatches(span, kind, tables, s, i, j);
      case Empty =>
      case UnicodeAst(_) =>
    }
  }

  /** The rewritten boundaries read ASCII words; `^` and `$` are read alike. */
  lemma {:induction false} AssertionMatches(span: Span, kind: AssertionKind, tables: Tables, s: string, i: nat, j: nat)
    requires i <= j <= |s| && kind in {StartLine, EndLine, WordBoundary, NotWordBoundary}
    ensures EngineMatch(Rewrite(Assertion(span, kind)), tables, DEFAULT_FLAGS, s, i, j)
      <==> EcmaMatch(Assertion(span, kind), tables, s, i, j)
  {
    var ascii := [Negation, UnicodeFlag];
    assert ascii[1..] == [UnicodeFlag] && [UnicodeFlag][1..] == [];
    assert ApplyFlags([UnicodeFlag], false, DEFAULT_FLAGS) == EngineFlags(false, false, false);
    assert ApplyFlags(ascii, true, DEFAULT_FLAGS) == EngineFlags(false, false, false);
  }

  /** The main result: for every tree ECMA-262 admits and every input, the
      rewritten tree matches, under the engine's semantics, exactly the pairs of
      positions the source tree matches under ECMA-262's. */
  lemma {:induction false} MeaningIsPreserved(ast: Ast, rest: string, names: Names, tables: Tables, s: string)
    requires Spelled(ast) && EcmaAdmits(ast, rest, names)
    ensures SameMatches(ast, tables, s)
    decreases ast
  {
    hide SameMatches, SameAll, EcmaReads, EcmaSpellsItem, SpelledLiteral, SpelledBracketed, EcmaReadsClass, PrintOp;
    match ast
    case Repetition(op, sub) =>
      MeaningIsPreserved(sub, PrintOp(op) + rest, names, tables, s);
      RepetitionMatches(op, sub, tables, s);
    case Group(kind, sub) =>
      MeaningIsPreserved(sub, ")" + rest, names, tables, s);
      GroupMatches(kind, sub, names, tables, s);
    case Alternation(asts) =>
      AlternativesAreSpelled(asts, rest, names);
      forall k | 0 <= k < |asts| ensures SameMatches(asts[k], tables, s) {
        MeaningIsPreserved(asts[k], PrintMore(asts[k + 1..]) + rest, names, tables, s);
      }
      AlternationMatches(asts, tables, s);
    case Concat(asts) =>
      AllMeanTheSame(asts, rest, names, tables, s);
      ConcatMatches(asts, tables, s);
    case _ => LeafMatches(ast, rest, names, tables, s);
  }

  lemma {:induction false} AllMeanTheSame(asts: seq<Ast>, rest: string, names: Names, tables: Tables, s: string)
    requires forall k :: 0 <= k < |asts| ==> Spelled(asts[k]) && EcmaReadsTree(asts[k])
    requires EcmaSpellsAll(asts, rest, names)
    ensures SameAll(asts, tables, s)
    decreases asts
  {
    if asts != [] {
      MeaningIsPreserved(asts[0], PrintAll(asts[1..]) + rest, names, tables, s);
      AllMeanTheSame(asts[1..], rest, names, tables, s);
      assert RewriteAll(asts)[1..] == RewriteAll(asts[1..]);
    }
  }

  /** A search, as JSON Schema runs one, finds a match in the same inputs. */
  lemma {:induction false} SearchIsPreserved(ast: Ast, names: Names, tables: Tables, s: string)
    requires Spelled(ast) && EcmaAdmits(ast, "", names)
    ensures EngineFinds(Rewrite(ast), tables, s) <==> EcmaFinds(ast, tables, s)
  {
    MeaningIsPreserved(ast, "", names, tables, s);
  }

  // --- The rewritten tree is as the engine's parser builds them ----------

  function RewriteAtom(atom: Atom): Atom {
    match atom
    case Character(literal) => Character(RewriteLiteral(literal))
    case Compound(item) => Compound(RewriteItem(item))
  }

  function RewriteAtoms(atoms: seq<Atom>): (r: seq<Atom>)
    ensures |r| == |atoms| && forall k :: 0 <= k < |r| ==> r[k] == RewriteAtom(atoms[k])
  {
    if atoms == [] then [] else [RewriteAtom(atoms[0])] + RewriteAtoms(atoms[1..])
  }

  lemma {:induction false} RewriteAtomsConcat(a: seq<Atom>, b: seq<Atom>)
    ensures RewriteAtoms(a + b) == RewriteAtoms(a) + RewriteAtoms(b)
  {
  }

  lemma {:induction false} ItemAtomsRewritten(item: ClassItem)
    requires IsMember(item)
    ensures ItemAtoms(RewriteItem(item)) == RewriteAtoms(ItemAtoms(item))
  {
  }

  lemma {:induction false} AtomsRewritten(items: seq<ClassItem>)
    requires AreMembers(items)
    ensures Atoms(RewriteItems(items)) == RewriteAtoms(Atoms(items))
  {
    if items != [] {
      AtomsRewritten(items[1..]);
      ItemAtomsRewritten(items[0]);
      RewriteAtomsConcat(ItemAtoms(items[0]), Atoms(items[1..]));
      assert RewriteItems(items)[1..] == RewriteItems(items[1..]);
    }
  }

  /** What rewriting leaves of an atom: how it is written, if it is written as itself,
      and which character it is. */
  predicate IsKept(atom: Atom) {
    match atom
    case Character(literal) => RewriteLiteral(literal).c == literal.c
      && (literal.kind.Octal? ==> |literal.written| >= 2)
    case Compound(item) => item.PerlItem? || item.UnicodeItem?
  }

  lemma {:induction false} KeptIsBare(atom: Atom, c: char)
    requires IsKept(atom)
    ensures IsBare(RewriteAtom(atom), c) <==> IsBare(atom, c)
  {
  }

  lemma {:induction false} KeptOpensOther(atoms: seq<Atom>)
    requires atoms != [] && forall k :: 0 <= k < |atoms| ==> IsKept(atoms[k])
    ensures OpensOther(RewriteAtoms(atoms)) <==> OpensOther(atoms)
  {
    hide RewriteAtom, IsBare, IsKept;
    KeptIsBare(atoms[0], '[');
    if |atoms| >= 2 {
      forall c | c in "-&~" ensures IsBare(RewriteAtom(atoms[0]), c) <==> IsBare(atoms[0], c) {
        KeptIsBare(atoms[0], c);
      }
      forall c | c in "-&~" ensures IsBare(RewriteAtom(atoms[1]), c) <==> IsBare(atoms[1], c) {
        KeptIsBare(atoms[1], c);
      }
    }
  }

  ghost predicate AllKept(atoms: seq<Atom>) {
    forall k :: 0 <= k < |atoms| ==> IsKept(atoms[k])
  }

  lemma {:induction false} RewrittenMembersAreRead(atoms: seq<Atom>, items: seq<ClassItem>)
    requires EngineMembers(atoms) == Some(items) && AllKept(atoms)
    ensures EngineMembers(RewriteAtoms(atoms)) == Some(RewriteItems(items))
  {
    if atoms != [] {
      KeptOpensOther(atoms);
      hide OpensOther;
      var written := RewriteAtoms(atoms);
      if |atoms| >= 3 && MayRange(atoms[0]) && IsBare(atoms[1], '-') && !IsBare(atoms[2], '-') {
        var lo, hi := atoms[0].literal, atoms[2].literal;
        PrependedIs(RangeItem(lo, hi), EngineMembers(atoms[3..]), items);
        RewrittenMembersAreRead(atoms[3..], items[1..]);
        KeptIsBare(atoms[1], '-');
        KeptIsBare(atoms[2], '-');
        assert written[3..] == RewriteAtoms(atoms[3..]);
      } else {
        PrependedIs(Member(atoms[0]), EngineMembers(atoms[1..]), items);
        RewrittenMembersAreRead(atoms[1..], items[1..]);
        if |atoms| >= 3 {
          KeptIsBare(atoms[1], '-');
          KeptIsBare(atoms[2], '-');
        }
        assert written[1..] == RewriteAtoms(atoms[1..]);
        assert Member(written[0]) == RewriteItem(Member(atoms[0]));
      }
    }
  }

  lemma {:induction false} RewrittenClassIsRead(atoms: seq<Atom>, items: seq<ClassItem>)
    requires EngineClassMembers(atoms) == Some(items) && AllKept(atoms)
    ensures EngineClassMembers(RewriteAtoms(atoms)) == Some(RewriteItems(items))
  {
    if atoms != [] {
      KeptIsBare(atoms[0], '-');
    }
    if atoms != [] && IsBare(atoms[0], '-') {
      var written := RewriteAtoms(atoms);
      PrependedIs(Member(atoms[0]), EngineClassMembers(atoms[1..]), items);
      RewrittenClassIsRead(atoms[1..], items[1..]);
      assert written[1..] == RewriteAtoms(atoms[1..]);
      assert Member(written[0]) == RewriteItem(Member(atoms[0]));
    } else {
      RewrittenMembersAreRead(atoms, items);
    }
  }

  lemma {:induction false} LiteralIsKept(literal: Literal, rest: string)
    requires SpelledLiteral(literal, true) && EcmaReads(literal.written, rest, literal.c, true)
    ensures IsKept(Character(literal))
  {
    LiteralMeansItself(literal, rest, true);
  }

  lemma {:induction false} AtomsAreKept(items: seq<ClassItem>, rest: string, names: Names)
    requires AreMembers(items) && EcmaSpellsItems(items, rest, names)
    requires forall k :: 0 <= k < |items| ==> SpelledItem(items[k])
    ensures AllKept(Atoms(items))
  {
    if items != [] {
      hide SpelledLiteral, EcmaReads;
      var before := PrintItems(items[1..]) + rest;
      AtomsAreKept(items[1..], rest, names);
      match items[0]
      case LiteralItem(literal) => LiteralIsKept(literal, before);
      case RangeItem(lo, hi) =>
        LiteralIsKept(lo, "-" + hi.written + before);
        LiteralIsKept(hi, before);
        assert IsKept(Hyphen());
      case _ =>
    }
  }

  lemma {:induction false} ItemStaysSpelled(item: ClassItem, rest: string, names: Names)
    requires IsMember(item) && SpelledItem(item) && EcmaSpellsItem(item, rest, names)
    ensures SpelledItem(RewriteItem(item))
  {
    match item
    case LiteralItem(literal) => LiteralMeansItself(literal, rest, true);
    case RangeItem(lo, hi) =>
      LiteralMeansItself(lo, "-" + hi.written + rest, true);
      LiteralMeansItself(hi, rest, true);
    case PerlItem(perl) => PerlClassSpelled(perl.kind, perl.negated);
    case UnicodeItem(_) =>
  }

  lemma {:induction false} ItemsStaySpelled(items: seq<ClassItem>, rest: string, names: Names)
    requires AreMembers(items) && EcmaSpellsItems(items, rest, names)
    requires forall k :: 0 <= k < |items| ==> SpelledItem(items[k])
    ensures forall k :: 0 <= k < |items| ==> SpelledItem(RewriteItem(items[k]))
  {
    if items != [] {
      ItemStaysSpelled(items[0], PrintItems(items[1..]) + rest, names);
      ItemsStaySpelled(items[1..], rest, names);
      assert forall k :: 1 <= k < |items| ==> items[k] == items[1..][k - 1];
    }
  }

  lemma {:induction false} MembersRewritten(item: ClassItem)
    requires Flat(item)
    ensures MembersOf(RewriteItem(item)) == RewriteItems(MembersOf(item)) && Flat(RewriteItem(item))
    ensures ItemAtoms(RewriteItem(item)) == RewriteAtoms(ItemAtoms(item))
  {
    FlatMembers(item);
    if item.UnionItem? {
      AtomsRewritten(item.items);
    } else if !item.NoItem? {
      ItemAtomsRewritten(item);
      assert RewriteItems([item]) == [RewriteItem(item)];
    }
  }

  /** The parser reads a rewritten class as the rewritten members. */
  lemma {:induction false} ClassStaysSpelled(bracketed: Bracketed, rest: string, names: Names)
    requires SpelledBracketed(bracketed) && bracketed.members.ItemSet?
    requires EcmaSpellsItem(bracketed.members.item, rest, names)
    ensures SpelledBracketed(RewriteBracketed(bracketed))
  {
    var item := bracketed.members.item;
    hide EngineClassMembers, SpelledLiteral, EcmaReads;
    FlatMembers(item);
    SpelledMembers(item, rest, names);
    MembersRewritten(item);
    ItemsStaySpelled(MembersOf(item), rest, names);
    AtomsAreKept(MembersOf(item), rest, names);
    RewrittenClassIsRead(ItemAtoms(item), MembersOf(item));
    ClassStaysOpen(ItemAtoms(item));
    assert SpelledItem(RewriteItem(item)) by {
      if !item.NoItem? && !item.UnionItem? {
        assert MembersOf(item)[0] == item;
      }
    }
  }

  lemma {:induction false} ClassStaysOpen(atoms: seq<Atom>)
    requires AllKept(atoms)
    ensures forall k :: 0 <= k < |atoms| ==>
      && (IsBare(RewriteAtoms(atoms)[k], ']') <==> IsBare(atoms[k], ']'))
      && (IsBare(RewriteAtoms(atoms)[k], '^') <==> IsBare(atoms[k], '^'))
  {
    forall k | 0 <= k < |atoms|
      ensures IsBare(RewriteAtoms(atoms)[k], ']') <==> IsBare(atoms[k], ']')
      ensures IsBare(RewriteAtoms(atoms)[k], '^') <==> IsBare(atoms[k], '^')
    {
      KeptIsBare(atoms[k], ']');
      KeptIsBare(atoms[k], '^');
    }
  }

  lemma {:induction false} LeafStaysSpelled(ast: Ast, rest: string, names: Names)
    requires Spelled(ast) && EcmaSpells(ast, rest, names)
    requires !ast.Repetition? && !ast.Group? && !ast.Alternation? && !ast.Concat?
    ensures Spelled(Rewrite(ast))
  {
    match ast
    case LiteralAst(literal) => LiteralMeansItself(literal, rest, false);
    case Dot(_) => DotClassSpelled();
    case PerlAst(perl) => PerlClassSpelled(perl.kind, perl.negated);
    case BracketedAst(bracketed) => ClassStaysSpelled(bracketed, "]" + rest, names);
    case _ =>
  }

  /** No rewriting turns a tree into one that binds more loosely. */
  lemma {:induction false} BindingIsKept(ast: Ast)
    ensures Rewrite(ast).Alternation? == ast.Alternation? && Rewrite(ast).Concat? == ast.Concat?
    ensures Rewrite(ast).Empty? == ast.Empty? && Rewrite(ast).Flags? == ast.Flags?
  {
  }

  lemma {:induction false} RepetitionStaysSpelled(ast: Ast)
    requires ast.Repetition? && Spelled(ast) && Spelled(Rewrite(ast.sub))
    ensures Spelled(Rewrite(ast))
  {
    BindingIsKept(ast.sub);
  }

  lemma {:induction false} SequenceStaysSpelled(ast: Ast)
    requires (ast.Concat? || ast.Alternation?) && Spelled(ast) && forall k :: 0 <= k < |ast.asts| ==>
      Spelled(Rewrite(ast.asts[k]))
    ensures Spelled(Rewrite(ast))
  {
    forall k | 0 <= k < |ast.asts| ensures Spelled(Rewrite(ast).asts[k]) {
      BindingIsKept(ast.asts[k]);
    }
    forall k | 0 <= k < |ast.asts| { BindingIsKept(ast.asts[k]); }
  }

  /** The rewritten tree is as the engine's parser builds them: every literal in it is
      spelled as the character it stands for, every class is the members the parser
      reads it as, and no rewriting changes what binds to what. */
  lemma {:induction false} RewriteStaysSpelled(ast: Ast, rest: string, names: Names)
    requires Spelled(ast) && EcmaSpells(ast, rest, names)
    ensures Spelled(Rewrite(ast))
    decreases ast
  {
    hide EcmaReads, EcmaSpellsItem, SpelledLiteral, SpelledBracketed, SpelledOp, PrintOp;
    match ast
    case Repetition(op, sub) =>
      RewriteStaysSpelled(sub, PrintOp(op) + rest, names);
      RepetitionStaysSpelled(ast);
    case Group(_, sub) => RewriteStaysSpelled(sub, ")" + rest, names);
    case Alternation(asts) =>
      AlternativesAreSpelled(asts, rest, names);
      forall k | 0 <= k < |asts| ensures Spelled(Rewrite(asts[k])) {
        RewriteStaysSpelled(asts[k], PrintMore(asts[k + 1..]) + rest, names);
      }
      SequenceStaysSpelled(ast);
    case Concat(asts) =>
      AllStaySpelled(asts, rest, names);
      SequenceStaysSpelled(ast);
    case _ => LeafStaysSpelled(ast, rest, names);
  }

  lemma {:induction false} AllStaySpelled(asts: seq<Ast>, rest: string, names: Names)
    requires (forall k :: 0 <= k < |asts| ==> Spelled(asts[k])) && EcmaSpellsAll(asts, rest, names)
    ensures forall k :: 0 <= k < |asts| ==> Spelled(Rewrite(asts[k]))
    decreases asts
  {
    if asts != [] {
      RewriteStaysSpelled(asts[0], PrintAll(asts[1..]) + rest, names);
      AllStaySpelled(asts[1..], rest, names);
      assert forall k :: 1 <= k < |asts| ==> asts[k] == asts[1..][k - 1];
    }
  }
}
