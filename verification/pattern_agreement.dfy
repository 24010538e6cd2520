/** When the two dialects read one pattern's text as one tree. Part by part the
    translator accepts what ECMA-262 spells (crates/kynos-openapi/src/pattern.rs:
    192-446); here is exactly when that is the pattern ECMA-262 reads, and where it
    is not. */
module PatternAgreement {
  import opened PatternSyntax
  import opened PatternDialects
  import opened PatternClasses
  import opened Options

  // --- Classes ----------------------------------------------------------

  /** A member that is neither a union nor nothing. */
  predicate IsMember(item: ClassItem) {
    !item.UnionItem? && !item.NoItem?
  }

  predicate AreMembers(items: seq<ClassItem>) {
    forall k :: 0 <= k < |items| ==> IsMember(items[k])
  }

  lemma {:induction false} FlatMembers(item: ClassItem)
    requires Flat(item)
    ensures AreMembers(MembersOf(item)) && Atoms(MembersOf(item)) == ItemAtoms(item)
  {
    if item.NoItem? {
    } else if !item.UnionItem? {
      assert [item][1..] == [];
      assert Atoms([item]) == ItemAtoms(item) + [];
    }
  }

  lemma {:induction false} SpelledMembers(item: ClassItem, rest: string, names: Names)
    requires SpelledItem(item) && EcmaSpellsItem(item, rest, names)
    ensures EcmaSpellsItems(MembersOf(item), rest, names)
    ensures forall k :: 0 <= k < |MembersOf(item)| ==> SpelledItem(MembersOf(item)[k])
  {
    if !item.NoItem? && !item.UnionItem? {
      assert [item][1..] == [] && PrintItems([]) + rest == rest;
    }
  }

  lemma {:induction false} AtomsMayRange(items: seq<ClassItem>, rest: string, names: Names)
    requires AreMembers(items) && EcmaSpellsItems(items, rest, names)
    ensures AllMayRange(Atoms(items))
  {
    if items != [] {
      assert AllMayRange(ItemAtoms(items[0]));
      AtomsMayRange(items[1..], rest, names);
    }
  }

  predicate InOrder(items: seq<ClassItem>) {
    forall k :: 0 <= k < |items| && items[k].RangeItem? ==> items[k].lo.c <= items[k].hi.c
  }

  lemma {:induction false} MembersInOrder(atoms: seq<Atom>, items: seq<ClassItem>)
    requires EngineMembers(atoms) == Some(items)
    requires forall k :: 0 <= k < |atoms| && atoms[k].Compound? ==> !atoms[k].item.RangeItem?
    ensures InOrder(items)
  {
    if atoms != [] {
      hide OpensOther;
      var more := items[1..];
      if |atoms| >= 3 && MayRange(atoms[0]) && IsBare(atoms[1], '-') && !IsBare(atoms[2], '-') {
        PrependedIs(RangeItem(atoms[0].literal, atoms[2].literal), EngineMembers(atoms[3..]), items);
        MembersInOrder(atoms[3..], more);
      } else {
        PrependedIs(Member(atoms[0]), EngineMembers(atoms[1..]), items);
        MembersInOrder(atoms[1..], more);
      }
      assert forall k :: 1 <= k < |items| ==> items[k] == more[k - 1];
    }
  }

  lemma {:induction false} ClassInOrder(atoms: seq<Atom>, items: seq<ClassItem>)
    requires EngineClassMembers(atoms) == Some(items)
    requires forall k :: 0 <= k < |atoms| && atoms[k].Compound? ==> !atoms[k].item.RangeItem?
    ensures InOrder(items)
  {
    if atoms != [] && IsBare(atoms[0], '-') {
      var more := items[1..];
      PrependedIs(Member(atoms[0]), EngineClassMembers(atoms[1..]), items);
      ClassInOrder(atoms[1..], more);
      assert forall k :: 1 <= k < |items| ==> items[k] == more[k - 1];
    } else {
      MembersInOrder(atoms, items);
    }
  }

  lemma {:induction false} OrderedMembers(items: seq<ClassItem>, rest: string, names: Names)
    requires InOrder(items) && AreMembers(items) && EcmaSpellsItems(items, rest, names)
    ensures AllInRange(AsMembers(items))
  {
    if items != [] {
      var more := items[1..];
      assert forall k :: 0 <= k < |more| ==> more[k] == items[k + 1];
      OrderedMembers(more, rest, names);
      assert InRange(AsMember(items[0]));
      var all := AsMembers(items);
      assert forall k :: 1 <= k < |all| ==> all[k] == AsMembers(more)[k - 1];
    }
  }

  /** What is known of a class the parser built and ECMA-262 spells. */
  lemma {:induction false} ClassIsRead(bracketed: Bracketed, rest: string, names: Names)
    requires SpelledBracketed(bracketed) && bracketed.members.ItemSet?
    requires EcmaSpellsItem(bracketed.members.item, rest, names)
    ensures var item := bracketed.members.item;
      && AllMayRange(ItemAtoms(item)) && AreMembers(MembersOf(item))
      && EcmaSpellsItems(MembersOf(item), rest, names)
      && AllInRange(AsMembers(MembersOf(item)))
  {
    var item := bracketed.members.item;
    FlatMembers(item);
    SpelledMembers(item, rest, names);
    AtomsMayRange(MembersOf(item), rest, names);
    ClassInOrder(ItemAtoms(item), MembersOf(item));
    OrderedMembers(MembersOf(item), rest, names);
  }

  /** A class is what ECMA-262 reads exactly when it does not open in a range. */
  lemma {:induction false} ClassAgreesIff(bracketed: Bracketed, rest: string, names: Names)
    requires SpelledBracketed(bracketed) && bracketed.members.ItemSet?
    requires EcmaSpellsItem(bracketed.members.item, rest, names)
    ensures EcmaReadsClass(bracketed.members.item) <==> !OpensInRange(ItemAtoms(bracketed.members.item))
  {
    var item := bracketed.members.item;
    hide EngineClassMembers, EcmaMembers, AsMembers, OpensInRange, AllInRange, AfterHyphens, AllMayRange;
    ClassIsRead(bracketed, rest, names);
    SameMembersIff(ItemAtoms(item), MembersOf(item));
    if !OpensInRange(ItemAtoms(item)) {
      SameInRange(ItemAtoms(item), MembersOf(item));
    }
  }

  // --- Counts -----------------------------------------------------------

  lemma {:induction false} TightIff(figure: Figure)
    ensures PrintFigure(figure) == figure.digits <==> IsTight(figure)
  {
    if IsTight(figure) {
      assert "" + figure.digits + "" == figure.digits;
    }
  }

  /** A count is what ECMA-262 reads exactly when it holds no space. */
  lemma {:induction false} CountAgreesIff(op: RepetitionOp)
    requires SpelledOp(op)
    ensures EcmaQuantifies(op) <==> HasNoSpaces(op.quantifier)
  {
    match op.quantifier
    case Exactly(n) => TightIff(n);
    case AtLeast(n) => TightIff(n);
    case Bounded(n, m) => TightIff(n); TightIff(m);
    case _ =>
  }

  // --- Patterns ---------------------------------------------------------

  /** The exact condition: of the patterns the translator accepts, ECMA-262 reads as
      the tree they were parsed as exactly those with no space in a count and no class
      that opens in a range. */
  lemma {:induction false} AdmittedIff(ast: Ast, rest: string, names: Names)
    requires Spelled(ast) && EcmaSpells(ast, rest, names)
    ensures EcmaAdmits(ast, rest, names) <==> ReadAlike(ast)
    decreases ast
  {
    hide EcmaReadsClass, OpensInRange, EcmaQuantifies, HasNoSpaces, SpelledOp;
    match ast
    case BracketedAst(bracketed) => ClassAgreesIff(bracketed, "]" + rest, names);
    case Repetition(op, sub) =>
      CountAgreesIff(op);
      AdmittedIff(sub, PrintOp(op) + rest, names);
    case Group(_, sub) => AdmittedIff(sub, ")" + rest, names);
    case Alternation(asts) =>
      AlternativesAreSpelled(asts, rest, names);
      forall k | 0 <= k < |asts| ensures EcmaReadsTree(asts[k]) <==> ReadAlike(asts[k]) {
        AdmittedIff(asts[k], PrintMore(asts[k + 1..]) + rest, names);
      }
    case Concat(asts) => AllAdmittedIff(asts, rest, names);
    case _ =>
  }

  lemma {:induction false} AllAdmittedIff(asts: seq<Ast>, rest: string, names: Names)
    requires (forall k :: 0 <= k < |asts| ==> Spelled(asts[k])) && EcmaSpellsAll(asts, rest, names)
    ensures forall k :: 0 <= k < |asts| ==> (EcmaReadsTree(asts[k]) <==> ReadAlike(asts[k]))
    decreases asts
  {
    if asts != [] {
      AdmittedIff(asts[0], PrintAll(asts[1..]) + rest, names);
      AllAdmittedIff(asts[1..], rest, names);
      assert forall k :: 1 <= k < |asts| ==> asts[k] == asts[1..][k - 1];
    }
  }

  lemma {:induction false} AlternativesAreSpelled(asts: seq<Ast>, rest: string, names: Names)
    requires EcmaSpellsAlternatives(asts, rest, names)
    ensures forall k :: 0 <= k < |asts| ==> EcmaSpells(asts[k], PrintMore(asts[k + 1..]) + rest, names)
  {
    if asts != [] {
      AlternativesAreSpelled(asts[1..], rest, names);
      forall k | 1 <= k < |asts| ensures EcmaSpells(asts[k], PrintMore(asts[k + 1..]) + rest, names) {
        assert asts[1..][k - 1] == asts[k] && asts[1..][k..] == asts[k + 1..];
      }
    }
  }
}
