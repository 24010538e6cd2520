/** One class, read twice: the members the engine's parser reads its atoms as, and
    those ECMA-262 does. They are the same exactly where the class does not open with
    two hyphens, or a multiple of three more, and a member behind them. */
module PatternClasses {
  import opened PatternSyntax
  import opened PatternDialects
  import opened Sequences
  import opened Options

  // --- The atoms are the text -------------------------------------------

  lemma {:induction false} PrintAtomsConcat(a: seq<Atom>, b: seq<Atom>)
    ensures PrintAtoms(a + b) == PrintAtoms(a) + PrintAtoms(b)
  {
    if a == [] {
      assert a + b == b;
    } else {
      TailOfConcat(a, b);
      PrintAtomsConcat(a[1..], b);
      Associative(PrintAtom(a[0]), PrintAtoms(a[1..]), PrintAtoms(b));
    }
  }

  /** A class's text is its atoms, one after the other. */
  lemma {:induction false} AtomsPrint(item: ClassItem)
    ensures PrintAtoms(ItemAtoms(item)) == PrintItem(item)
    decreases item
  {
    match item
    case UnionItem(items) => AllAtomsPrint(items);
    case RangeItem(lo, hi) =>
      var first, hyphen, last := [Character(lo)], [Hyphen()], [Character(hi)];
      PrintAtomsConcat(first + hyphen, last);
      PrintAtomsConcat(first, hyphen);
      AtomPrints(Character(lo));
      AtomPrints(Hyphen());
      AtomPrints(Character(hi));
      assert ItemAtoms(item) == first + hyphen + last;
    case NoItem =>
    case LiteralItem(literal) => AtomPrints(Character(literal));
    case _ => AtomPrints(Compound(item));
  }

  lemma {:induction false} AtomPrints(atom: Atom)
    ensures PrintAtoms([atom]) == PrintAtom(atom)
  {
    assert [atom][1..] == [];
  }

  lemma {:induction false} AllAtomsPrint(items: seq<ClassItem>)
    ensures PrintAtoms(Atoms(items)) == PrintItems(items)
    decreases items
  {
    if items != [] {
      AtomsPrint(items[0]);
      AllAtomsPrint(items[1..]);
      PrintAtomsConcat(ItemAtoms(items[0]), Atoms(items[1..]));
    }
  }

  // --- The two readings -------------------------------------------------

  predicate AllMayRange(atoms: seq<Atom>) {
    forall k :: 0 <= k < |atoms| ==> MayRange(atoms[k])
  }

  lemma {:induction false} PrependedIs(item: ClassItem, more: Option<seq<ClassItem>>, items: seq<ClassItem>)
    requires Prepended(item, more) == Some(items)
    ensures items != [] && items[0] == item && more == Some(items[1..])
    ensures AsMembers(items) == [AsMember(item)] + AsMembers(items[1..])
  {
  }

  lemma {:induction false} MemberIsAtom(atom: Atom)
    requires MayRange(atom)
    ensures AsMember(Member(atom)) == Single(atom)
  {
  }

  /** Behind the opening hyphens the two readings are one. */
  lemma {:induction false} MembersAreAlike(atoms: seq<Atom>, items: seq<ClassItem>)
    requires EngineMembers(atoms) == Some(items) && AllMayRange(atoms)
    ensures EcmaMembers(atoms) == AsMembers(items)
  {
    if atoms != [] {
      hide OpensOther;
      if |atoms| >= 3 && IsBare(atoms[1], '-') && !IsBare(atoms[2], '-') {
        PrependedIs(RangeItem(atoms[0].literal, atoms[2].literal), EngineMembers(atoms[3..]), items);
        MembersAreAlike(atoms[3..], items[1..]);
      } else {
        PrependedIs(Member(atoms[0]), EngineMembers(atoms[1..]), items);
        MemberIsAtom(atoms[0]);
        TwoHyphensOperate(atoms);
        MembersAreAlike(atoms[1..], items[1..]);
      }
    }
  }

  /** Two hyphens in a row are read as an operator, so none follow an atom. */
  lemma {:induction false} TwoHyphensOperate(atoms: seq<Atom>)
    requires atoms != [] && EngineMembers(atoms[1..]).Some?
    ensures |atoms| >= 3 && IsBare(atoms[1], '-') ==> !IsBare(atoms[2], '-')
  {
  }

  lemma {:induction false} OpeningStep(atoms: seq<Atom>, items: seq<ClassItem>)
    requires EngineClassMembers(atoms) == Some(items) && AllMayRange(atoms) && atoms != [] && IsBare(atoms[0], '-')
    ensures items != [] && EngineClassMembers(atoms[1..]) == Some(items[1..]) && AllMayRange(atoms[1..])
    ensures AsMembers(items) == [Single(atoms[0])] + AsMembers(items[1..])
  {
    PrependedIs(Member(atoms[0]), EngineClassMembers(atoms[1..]), items);
    MemberIsAtom(atoms[0]);
  }

  /** Where the engine's members begin, of a class that opens with no hyphen. */
  lemma {:induction false} FirstMember(atoms: seq<Atom>, items: seq<ClassItem>)
    requires EngineMembers(atoms) == Some(items) && AllMayRange(atoms) && atoms != [] && !IsBare(atoms[0], '-')
    ensures AsMembers(items) != []
    ensures match AsMembers(items)[0] case Single(atom) => atom == atoms[0] case Between(lo, _) => lo == atoms[0]
    ensures AfterHyphens(AsMembers(items)) == AsMembers(items)
  {
    hide OpensOther;
    if |atoms| >= 3 && IsBare(atoms[1], '-') && !IsBare(atoms[2], '-') {
      PrependedIs(RangeItem(atoms[0].literal, atoms[2].literal), EngineMembers(atoms[3..]), items);
    } else {
      PrependedIs(Member(atoms[0]), EngineMembers(atoms[1..]), items);
      MemberIsAtom(atoms[0]);
    }
  }

  /** What the readings of a class have in common. */
  ghost predicate SameMembers(atoms: seq<Atom>, items: seq<ClassItem>) {
    AfterHyphens(EcmaMembers(atoms)) == AfterHyphens(AsMembers(items))
  }

  lemma {:induction false} OneHyphen(atoms: seq<Atom>, items: seq<ClassItem>)
    requires EngineClassMembers(atoms) == Some(items) && AllMayRange(atoms)
    requires OpeningHyphens(atoms) == 1
    ensures EcmaMembers(atoms) == AsMembers(items)
  {
    OpeningStep(atoms, items);
    MembersAreAlike(atoms[1..], items[1..]);
  }

  lemma {:induction false} TwoHyphens(atoms: seq<Atom>, items: seq<ClassItem>)
    requires EngineClassMembers(atoms) == Some(items) && AllMayRange(atoms)
    requires OpeningHyphens(atoms) == 2
    ensures |atoms| == 2 ==> EcmaMembers(atoms) == AsMembers(items)
    ensures |atoms| > 2 ==> !SameMembers(atoms, items) && EcmaMembers(atoms)[0] == Between(atoms[0], atoms[2])
  {
    var rest := atoms[1..];
    OpeningStep(atoms, items);
    OpeningStep(rest, items[1..]);
    assert rest[1..] == atoms[2..] && items[1..][1..] == items[2..];
    assert OpeningHyphens(rest) == 1 && OpeningHyphens(atoms[2..]) == 0;
    if |atoms| > 2 {
      assert !IsBare(atoms[2], '-');
      var members := AsMembers(items[2..]);
      FirstMember(atoms[2..], items[2..]);
      assert AsMembers(items) == [Single(atoms[0])] + ([Single(rest[0])] + members);
      HyphenDropped(Single(atoms[0]), [Single(rest[0])] + members);
      HyphenDropped(Single(rest[0]), members);
      assert AfterHyphens(EcmaMembers(atoms)) == EcmaMembers(atoms);
    } else {
      assert atoms[2..] == [];
      assert EcmaMembers(rest) == [Single(rest[0])] + EcmaMembers(rest[1..]);
    }
  }

  lemma {:induction false} HyphenDropped(member: ClassMember, more: seq<ClassMember>)
    requires IsHyphens(member)
    ensures AfterHyphens([member] + more) == AfterHyphens(more)
  {
    assert ([member] + more)[1..] == more;
  }

  /** Three hyphens on, everything is as it was. */
  lemma {:induction false} ThreeHyphens(atoms: seq<Atom>, items: seq<ClassItem>)
    requires EngineClassMembers(atoms) == Some(items) && AllMayRange(atoms)
    requires OpeningHyphens(atoms) >= 3
    ensures |items| >= 3 && EngineClassMembers(atoms[3..]) == Some(items[3..]) && AllMayRange(atoms[3..])
    ensures OpeningHyphens(atoms[3..]) == OpeningHyphens(atoms) - 3
    ensures EcmaMembers(atoms) == [Between(atoms[0], atoms[2])] + EcmaMembers(atoms[3..])
    ensures IsBare(atoms[0], '-') && IsBare(atoms[1], '-') && IsBare(atoms[2], '-')
    ensures AsMembers(items) == [Single(atoms[0])] + ([Single(atoms[1])] + ([Single(atoms[2])] + AsMembers(items[3..])))
  {
    assert atoms[1..][1..] == atoms[2..] && atoms[2..][1..] == atoms[3..];
    assert OpeningHyphens(atoms[1..]) == OpeningHyphens(atoms) - 1;
    assert OpeningHyphens(atoms[2..]) == OpeningHyphens(atoms) - 2;
    OpeningStep(atoms, items);
    OpeningStep(atoms[1..], items[1..]);
    assert items[1..][1..] == items[2..];
    OpeningStep(atoms[2..], items[2..]);
    assert items[2..][1..] == items[3..];
  }

  lemma {:induction false} ThreeDropped(atoms: seq<Atom>, items: seq<ClassItem>)
    requires EngineClassMembers(atoms) == Some(items) && AllMayRange(atoms)
    requires OpeningHyphens(atoms) >= 3
    ensures |items| >= 3 && OpensInRange(atoms) == OpensInRange(atoms[3..])
    ensures SameMembers(atoms, items) == SameMembers(atoms[3..], items[3..])
  {
    ThreeHyphens(atoms, items);
    hide OpeningHyphens, EcmaMembers, AsMembers, EngineClassMembers, AfterHyphens, MayRange;
    var members := AsMembers(items[3..]);
    HyphenDropped(Between(atoms[0], atoms[2]), EcmaMembers(atoms[3..]));
    HyphenDropped(Single(atoms[0]), [Single(atoms[1])] + ([Single(atoms[2])] + members));
    HyphenDropped(Single(atoms[1]), [Single(atoms[2])] + members);
    HyphenDropped(Single(atoms[2]), members);
  }

  /** The exact condition: ECMA-262 reads a class as the members the engine does
      exactly when the class does not open in a range. */
  lemma {:induction false} SameMembersIff(atoms: seq<Atom>, items: seq<ClassItem>)
    requires EngineClassMembers(atoms) == Some(items) && AllMayRange(atoms)
    ensures SameMembers(atoms, items) <==> !OpensInRange(atoms)
  {
    if OpeningHyphens(atoms) == 0 {
      MembersAreAlike(atoms, items);
    } else if OpeningHyphens(atoms) == 1 {
      OneHyphen(atoms, items);
    } else if OpeningHyphens(atoms) == 2 {
      TwoHyphens(atoms, items);
    } else {
      ThreeHyphens(atoms, items);
      ThreeDropped(atoms, items);
      SameMembersIff(atoms[3..], items[3..]);
    }
  }

  // --- What each reading holds ------------------------------------------

  lemma {:induction false} BareHyphenHolds(member: ClassMember, tables: Tables, c: char)
    requires IsHyphens(member)
    ensures MemberHolds(member, tables, c) <==> c == '-'
  {
    match member
    case Single(atom) => assert atom.literal.written[0] == '-';
    case Between(lo, hi) => assert lo.literal.written[0] == '-' && hi.literal.written[0] == '-';
  }

  /** Members read alike hold alike. */
  lemma {:induction false} SameCharacters(atoms: seq<Atom>, items: seq<ClassItem>, tables: Tables, c: char)
    requires EngineClassMembers(atoms) == Some(items) && AllMayRange(atoms) && !OpensInRange(atoms)
    ensures AnyHolds(EcmaMembers(atoms), tables, c) <==> AnyHolds(AsMembers(items), tables, c)
  {
    if OpeningHyphens(atoms) == 0 {
      MembersAreAlike(atoms, items);
    } else if OpeningHyphens(atoms) == 1 {
      OneHyphen(atoms, items);
    } else if OpeningHyphens(atoms) == 2 {
      TwoHyphens(atoms, items);
    } else {
      ThreeHyphens(atoms, items);
      ThreeDropped(atoms, items);
      SameCharacters(atoms[3..], items[3..], tables, c);
      ThreeHold(atoms, items, tables, c);
    }
  }

  lemma {:induction false} ThreeHold(atoms: seq<Atom>, items: seq<ClassItem>, tables: Tables, c: char)
    requires EngineClassMembers(atoms) == Some(items) && AllMayRange(atoms)
    requires OpeningHyphens(atoms) >= 3
    ensures |items| >= 3
    ensures AnyHolds(EcmaMembers(atoms), tables, c) <==> c == '-' || AnyHolds(EcmaMembers(atoms[3..]), tables, c)
    ensures AnyHolds(AsMembers(items), tables, c) <==> c == '-' || AnyHolds(AsMembers(items[3..]), tables, c)
  {
    ThreeHyphens(atoms, items);
    BareHyphenHolds(Between(atoms[0], atoms[2]), tables, c);
    BareHyphenHolds(Single(atoms[0]), tables, c);
    BareHyphenHolds(Single(atoms[1]), tables, c);
    BareHyphenHolds(Single(atoms[2]), tables, c);
    hide OpeningHyphens, EcmaMembers, AsMembers, EngineClassMembers, MayRange, AnyHolds, MemberHolds;
    var members := AsMembers(items[3..]);
    OneMore(Between(atoms[0], atoms[2]), EcmaMembers(atoms[3..]), tables, c);
    OneMore(Single(atoms[0]), [Single(atoms[1])] + ([Single(atoms[2])] + members), tables, c);
    OneMore(Single(atoms[1]), [Single(atoms[2])] + members, tables, c);
    OneMore(Single(atoms[2]), members, tables, c);
  }

  lemma {:induction false} OneMore(member: ClassMember, more: seq<ClassMember>, tables: Tables, c: char)
    ensures AnyHolds([member] + more, tables, c) <==> MemberHolds(member, tables, c) || AnyHolds(more, tables, c)
  {
    assert ([member] + more)[1..] == more;
  }

  /** And make no early error of their own. */
  lemma {:induction false} SameInRange(atoms: seq<Atom>, items: seq<ClassItem>)
    requires EngineClassMembers(atoms) == Some(items) && AllMayRange(atoms) && !OpensInRange(atoms)
    requires AllInRange(AsMembers(items))
    ensures AllInRange(EcmaMembers(atoms))
  {
    if OpeningHyphens(atoms) == 0 {
      MembersAreAlike(atoms, items);
    } else if OpeningHyphens(atoms) == 1 {
      OneHyphen(atoms, items);
    } else if OpeningHyphens(atoms) == 2 {
      TwoHyphens(atoms, items);
    } else {
      ThreeHyphens(atoms, items);
      ThreeDropped(atoms, items);
      var members, more := AsMembers(items), AsMembers(items[3..]);
      assert forall k :: 0 <= k < |more| ==> more[k] == members[k + 3];
      SameInRange(atoms[3..], items[3..]);
      var first := Between(atoms[0], atoms[2]);
      assert InRange(first) by {
        assert atoms[0].literal.written[0] == '-' && atoms[2].literal.written[0] == '-';
      }
      var read := EcmaMembers(atoms[3..]);
      assert forall k :: 0 < k < |[first] + read| ==> ([first] + read)[k] == read[k - 1];
    }
  }
}
