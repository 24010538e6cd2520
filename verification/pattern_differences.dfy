/** Patterns the translator accepts (crates/kynos-openapi/src/pattern.rs:106-136) and
    ECMA-262 reads as something else, or not at all. */
module PatternDifferences {
  import opened PatternSyntax
  import opened PatternDialects
  import opened PatternClasses
  import opened PatternAgreement
  import opened PatternSplice
  import opened PatternMeaning
  import opened Numerals
  import opened Options

  // --- A class that opens in a range ------------------------------------

  /** `c`, written as itself at `at`. */
  function Itself(at: nat, c: char): Literal {
    Literal(Span(at, at + 1), Verbatim, [c], c)
  }

  /** `[--`, `last` and `]`. */
  function HyphenClass(last: ClassItem): Bracketed {
    Bracketed(false, ItemSet(UnionItem([LiteralItem(Itself(1, '-')), LiteralItem(Itself(2, '-')), last])))
  }

  /** A last member that is neither a hyphen nor the class's own syntax. */
  predicate MayBeLast(last: ClassItem) {
    || last.PerlItem?
    || (last.LiteralItem?
        && last.literal.written != ['-'] && last.literal.written != ['['] && last.literal.written != [']'])
  }

  lemma {:induction false} AtomsStep(item: ClassItem, more: seq<ClassItem>)
    ensures Atoms([item] + more) == ItemAtoms(item) + Atoms(more)
    ensures PrintItems([item] + more) == PrintItem(item) + PrintItems(more)
    ensures forall at: nat ::
      LaidItems([item] + more, at)
      <==> LaidItem(item, at) && LaidItems(more, at + |PrintItem(item)|)
    ensures forall rest, names ::
      EcmaSpellsItems([item] + more, rest, names)
      <==> EcmaSpellsItem(item, PrintItems(more) + rest, names) && EcmaSpellsItems(more, rest, names)
  {
    assert ([item] + more)[1..] == more;
  }

  lemma {:induction false} HyphenAtoms(last: ClassItem)
    requires MayBeLast(last)
    ensures |ItemAtoms(last)| == 1 && !IsBare(ItemAtoms(last)[0], '-')
    ensures ItemAtoms(HyphenClass(last).members.item)
         == [Character(Itself(1, '-')), Character(Itself(2, '-')), ItemAtoms(last)[0]]
  {
    var first, second := LiteralItem(Itself(1, '-')), LiteralItem(Itself(2, '-'));
    AtomsStep(last, []);
    AtomsStep(second, [last]);
    AtomsStep(first, [second, last]);
    assert [second] + [last] == [second, last] && [first] + [second, last] == [first, second, last];
    assert [last] + [] == [last];
  }

  /** The engine's parser builds the class as two hyphens and the last member, and to
      ECMA-262 it is the range from a hyphen to that member. */
  lemma {:induction false} HyphensOpenARange(last: ClassItem)
    requires MayBeLast(last) && SpelledItem(last)
    ensures SpelledBracketed(HyphenClass(last)) && OpensInRange(ItemAtoms(HyphenClass(last).members.item))
    ensures var atoms := ItemAtoms(HyphenClass(last).members.item);
      EcmaMembers(atoms) == [Between(Character(Itself(1, '-')), ItemAtoms(last)[0])]
  {
    HyphenAtoms(last);
    var atoms := ItemAtoms(HyphenClass(last).members.item);
    assert atoms[1..][1..] == [atoms[2]] && [atoms[2]][1..] == [] && atoms[3..] == [];
    LastIsRead(last, atoms[2]);
    var items := HyphenClass(last).members.item.items;
    assert [items[1]] + [last] == items[1..] && [items[0]] + items[1..] == items;
    assert EngineClassMembers(atoms[1..]) == Some(items[1..]);
    assert OpeningHyphens([atoms[2]]) == 0 && OpeningHyphens(atoms[1..]) == 1;
    assert EcmaMembers(atoms[3..]) == [];
  }

  lemma {:induction false} LastIsRead(last: ClassItem, atom: Atom)
    requires MayBeLast(last) && ItemAtoms(last) == [atom]
    ensures !IsBare(atom, '-') && EngineMembers([atom]) == Some([last])
  {
    assert [atom][1..] == [] && EngineMembers([]) == Some([]);
    assert !OpensOther([atom]);
    assert Member(atom) == last && [last] + [] == [last];
  }

  /** By the values read: where the last member is a character, ECMA-262 reads the class
      at all exactly from the hyphen up, and as the same characters exactly at the
      hyphen and the character after it. */
  lemma {:induction false} HyphenRangeIff(last: Literal, tables: Tables)
    requires MayBeLast(LiteralItem(last)) && SpelledLiteral(last, true)
    requires EcmaCharacter(last.written, true) == Some(last.c)
    ensures var members := EcmaMembers(ItemAtoms(HyphenClass(LiteralItem(last)).members.item));
      && (AllInRange(members) <==> '-' <= last.c)
      && ((forall c: char :: AnyHolds(members, tables, c) <==> c == '-' || c == last.c) <==> last.c in {'-', '.'})
  {
    var members := EcmaMembers(ItemAtoms(HyphenClass(LiteralItem(last)).members.item));
    var range := Between(Character(Itself(1, '-')), Character(last));
    HyphensOpenARange(LiteralItem(last));
    assert members == [range];
    assert AtomCharacter(range.lo) == Some('-') && AtomCharacter(range.hi) == Some(last.c);
    hide HyphenClass, EcmaMembers, ItemAtoms, AtomCharacter, Itself, AnyHolds;
    forall c: char ensures AnyHolds(members, tables, c) <==> '-' <= c <= last.c {
      LoneRange(range, tables, c);
    }
    EndsOnlyIff(members, tables, last.c);
  }

  /** A range from the hyphen holds nothing but its ends where there is nothing else
      in between. */
  lemma {:induction false} EndsOnlyIff(members: seq<ClassMember>, tables: Tables, last: char)
    requires forall c: char :: AnyHolds(members, tables, c) <==> '-' <= c <= last
    ensures (forall c: char :: AnyHolds(members, tables, c) <==> c == '-' || c == last) <==> last in {'-', '.'}
  {
    hide AnyHolds;
    if last < '-' {
      assert !AnyHolds(members, tables, '-');
    } else if last > '.' {
      assert AnyHolds(members, tables, '.');
    }
  }

  lemma {:induction false} LoneRange(range: ClassMember, tables: Tables, c: char)
    requires range.Between? && AtomCharacter(range.lo).Some? && AtomCharacter(range.hi).Some?
    ensures AnyHolds([range], tables, c) <==> AtomCharacter(range.lo).value <= c <= AtomCharacter(range.hi).value
  {
    assert [range][1..] == [];
  }

  /** What the engine has the class hold. */
  lemma {:induction false} EngineHolds(last: Literal, tables: Tables, c: char)
    requires last.kind != Octal
    ensures EngineClass(RewriteBracketed(HyphenClass(LiteralItem(last))), tables, true, c) <==> c == '-' || c == last.c
  {
    var bracketed := HyphenClass(LiteralItem(last));
    var item := bracketed.members.item;
    var items := item.items;
    forall k | 0 <= k < |items| ensures RewriteItems(items)[k] == items[k] {
      assert RewriteItem(items[k]) == items[k];
    }
    assert RewriteItems(items) == items;
    assert RewriteItem(item) == item;
    assert RewriteBracketed(bracketed) == bracketed;
    assert EngineItem(item, tables, true, c) <==> EngineAny(items, tables, true, c);
    assert EngineSet(bracketed.members, tables, true, c) <==> EngineItem(item, tables, true, c);
    AnyOfThree(items, tables, true, c);
  }

  lemma {:induction false} HyphenIsSpelled(at: nat, rest: string, names: Names)
    ensures var item := LiteralItem(Itself(at, '-'));
      LaidItem(item, at) && PrintItem(item) == "-" && EcmaSpellsItem(item, rest, names)
  {
  }

  lemma {:induction false} UnionIsSpelled(items: seq<ClassItem>, names: Names)
    ensures var bracketed := Bracketed(false, ItemSet(UnionItem(items)));
      && PrintBracketed(bracketed) == "[" + PrintItems(items) + "]"
      && (LaidBracketed(bracketed, 0) <==> LaidItems(items, 1))
      && (EcmaSpells(BracketedAst(bracketed), "", names) <==> EcmaSpellsItems(items, "]", names))
  {
    var item := UnionItem(items);
    assert PrintSet(ItemSet(item)) == PrintItem(item) && PrintItem(item) == PrintItems(items);
    assert LaidSet(ItemSet(item), 1) <==> LaidItem(item, 1);
    assert "]" + "" == "]";
  }

  lemma {:induction false} ClassIsSpelled(last: ClassItem, names: Names)
    requires EcmaSpellsItem(last, "]", names) && LaidItem(last, 3)
    ensures EcmaSpells(BracketedAst(HyphenClass(last)), "", names)
    ensures PrintBracketed(HyphenClass(last)) == "[--" + PrintItem(last) + "]"
    ensures LaidBracketed(HyphenClass(last), 0)
  {
    hide EcmaSpellsItem, LaidItem, EcmaSpells, PrintItem, PrintItems, EcmaSpellsItems, LaidItems, PrintBracketed,
      LaidBracketed;
    var first, second := LiteralItem(Itself(1, '-')), LiteralItem(Itself(2, '-'));
    AtomsStep(last, []);
    AtomsStep(second, [last]);
    AtomsStep(first, [second, last]);
    assert [last] + [] == [last] && [second] + [last] == [second, last];
    assert [first] + [second, last] == HyphenClass(last).members.item.items;
    NothingIsSpelled(names);
    assert PrintItem(last) + "" == PrintItem(last) && "" + "]" == "]";
    HyphenIsSpelled(1, PrintItems([second, last]) + "]", names);
    HyphenIsSpelled(2, PrintItems([last]) + "]", names);
    UnionIsSpelled(HyphenClass(last).members.item.items, names);
  }

  lemma {:induction false} NothingIsSpelled(names: Names)
    ensures PrintItems([]) == "" && EcmaSpellsItems([], "]", names) && forall at: nat :: LaidItems([], at)
  {
  }

  /** Every such class is accepted, as ECMA-262 spells it part by part, and is not the
      pattern ECMA-262 reads. */
  lemma {:induction false} HyphenClassIsAccepted(last: ClassItem, names: Names)
    requires MayBeLast(last) && SpelledItem(last) && EcmaSpellsItem(last, "]", names) && LaidItem(last, 3)
    ensures var ast := BracketedAst(HyphenClass(last));
      && Laid(ast, 0) && Spelled(ast) && EcmaSpells(ast, "", names)
      && !ReadAlike(ast) && !EcmaAdmits(ast, "", names)
  {
    hide EcmaSpells, EcmaSpellsItem, LaidItem, SpelledItem, SpelledBracketed, OpensInRange, LaidBracketed, EcmaAdmits;
    HyphensOpenARange(last);
    ClassIsSpelled(last, names);
    AdmittedIff(BracketedAst(HyphenClass(last)), "", names);
  }

  /** The translator accepts the class that ends in `last`, spelled `text`. */
  ghost predicate IsAccepted(last: ClassItem, text: string, names: Names) {
    var ast := BracketedAst(HyphenClass(last));
    Print(ast) == text && Laid(ast, 0) && Spelled(ast) && EcmaSpells(ast, "", names)
  }

  lemma {:induction false} LastIsAccepted(last: ClassItem, names: Names)
    requires MayBeLast(last) && SpelledItem(last) && EcmaSpellsItem(last, "]", names) && LaidItem(last, 3)
    ensures IsAccepted(last, "[--" + PrintItem(last) + "]", names)
  {
    hide EcmaSpells, EcmaSpellsItem, LaidItem, SpelledItem, SpelledBracketed, OpensInRange, LaidBracketed, MayBeLast,
      PrintItem, PrintBracketed, EcmaAdmits, ReadAlike;
    HyphenClassIsAccepted(last, names);
    ClassIsSpelled(last, names);
  }

  /** `c`, last in the class. */
  function Last(c: char): ClassItem {
    LiteralItem(Itself(3, c))
  }

  lemma {:induction false} CharacterIsAccepted(c: char, names: Names)
    requires c !in {'-', '[', ']', '\\'}
    ensures IsAccepted(Last(c), "[--" + [c] + "]", names)
    ensures EcmaMembers(ItemAtoms(HyphenClass(Last(c)).members.item))
         == [Between(Character(Itself(1, '-')), Character(Itself(3, c)))]
  {
    hide HyphenClass, EcmaMembers, IsAccepted, OpensInRange, SpelledBracketed;
    LastIsAccepted(Last(c), names);
    HyphensOpenARange(Last(c));
  }

  /** `[--0]`: accepted, and to ECMA-262 it holds the full stop, to the engine not. */
  lemma {:induction false} HyphenRangeIsMissed(names: Names, tables: Tables)
    ensures IsAccepted(Last('0'), "[--0]", names)
    ensures var ast := BracketedAst(HyphenClass(Last('0')));
      EcmaFinds(ast, tables, ".") && !EngineFinds(Rewrite(ast), tables, ".")
  {
    hide IsAccepted, EcmaMembers, EngineClass, RewriteBracketed, EcmaFinds, EngineFinds, Rewrite;
    CharacterIsAccepted('0', names);
    assert "[--" + ['0'] + "]" == "[--0]";
    var members := EcmaMembers(ItemAtoms(HyphenClass(Last('0')).members.item));
    assert MemberHolds(members[0], tables, '.');
    EngineHolds(Itself(3, '0'), tables, '.');
    LoneClassFinds(HyphenClass(Last('0')), tables, '.');
  }

  /** A search of one character with nothing but a class. */
  lemma {:induction false} LoneClassFinds(bracketed: Bracketed, tables: Tables, c: char)
    ensures var ast := BracketedAst(bracketed);
      && (EcmaFinds(ast, tables, [c]) <==> EcmaClass(bracketed, tables, c))
      && (EngineFinds(Rewrite(ast), tables, [c]) <==> EngineClass(RewriteBracketed(bracketed), tables, true, c))
  {
    var ast := BracketedAst(bracketed);
    hide EcmaClass, EngineClass, RewriteBracketed;
    assert EcmaMatch(ast, tables, [c], 0, 1) <==> EcmaClass(bracketed, tables, c);
    assert EngineMatch(Rewrite(ast), tables, DEFAULT_FLAGS, [c], 0, 1)
      <==> EngineClass(RewriteBracketed(bracketed), tables, true, c);
  }

  /** `[--,]` and `[--\d]`: accepted, and to ECMA-262 a range out of order and one to no
      character. */
  lemma {:induction false} HyphenRangeIsNoRange(names: Names)
    ensures IsAccepted(Last(','), "[--,]", names)
    ensures !AllInRange(EcmaMembers(ItemAtoms(HyphenClass(Last(',')).members.item)))
    ensures var digit := PerlItem(Perl(Span(3, 5), Digit, false));
      && IsAccepted(digit, "[--\\d]", names)
      && !AllInRange(EcmaMembers(ItemAtoms(HyphenClass(digit).members.item)))
  {
    hide IsAccepted, EcmaMembers;
    CharacterIsAccepted(',', names);
    assert "[--" + [','] + "]" == "[--,]" && "[--" + "\\d" + "]" == "[--\\d]";
    assert !InRange(EcmaMembers(ItemAtoms(HyphenClass(Last(',')).members.item))[0]);
    DigitIsNoRange(Perl(Span(3, 5), Digit, false), names);
  }

  lemma {:induction false} DigitIsNoRange(perl: Perl, names: Names)
    requires Covers(perl.span, 3, 2)
    ensures IsAccepted(PerlItem(perl), "[--" + PrintPerl(perl.kind, perl.negated) + "]", names)
    ensures !AllInRange(EcmaMembers(ItemAtoms(HyphenClass(PerlItem(perl)).members.item)))
  {
    hide EcmaMembers, IsAccepted, OpensInRange, SpelledBracketed, PrintPerl;
    LastIsAccepted(PerlItem(perl), names);
    HyphensOpenARange(PerlItem(perl));
    assert !InRange(EcmaMembers(ItemAtoms(HyphenClass(PerlItem(perl)).members.item))[0]);
  }

  // --- A count that holds a space ---------------------------------------

  /** `a`, repeated as `op` has it. */
  function Repeated(op: RepetitionOp): Ast {
    Repetition(op, LiteralAst(Itself(0, 'a')))
  }

  lemma {:induction false} RepeatedIsAccepted(op: RepetitionOp, names: Names)
    requires SpelledOp(op)
    ensures Print(Repeated(op)) == "a" + PrintOp(op)
    ensures Laid(Repeated(op), 0) && Spelled(Repeated(op)) && EcmaSpells(Repeated(op), "", names)
    ensures ReadAlike(Repeated(op)) <==> HasNoSpaces(op.quantifier)
  {
    hide SpelledOp, PrintOp, HasNoSpaces;
  }

  /** `a{ 2}`: accepted, and no pattern of ECMA-262's. */
  lemma {:induction false} SpacedCountIsAccepted(names: Names)
    ensures var op := RepetitionOp(Exactly(Figure(" ", "2", "")), false, 2, Some(2));
      && Print(Repeated(op)) == "a{ 2}" && Laid(Repeated(op), 0)
      && Spelled(Repeated(op)) && EcmaSpells(Repeated(op), "", names) && !EcmaAdmits(Repeated(op), "", names)
  {
    var figure := Figure(" ", "2", "");
    var op := RepetitionOp(Exactly(figure), false, 2, Some(2));
    hide EcmaSpells, Spelled, Laid, ReadAlike, EcmaAdmits, Repeated;
    assert Decimal("2") == 2 by {
      assert "2"[..0] == "";
    }
    assert SpelledFigure(figure);
    RepeatedIsAccepted(op, names);
    AdmittedIff(Repeated(op), "", names);
  }
}
