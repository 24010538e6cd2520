/** The `Range` field of fuzz/fuzz_targets/range.rs: `recognise`, from the whole
    field down to its range-specs, and the order it refuses in. */
module RangeField {
  import opened Sequences
  import opened Splitting
  import opened Numerals
  import opened ByteRange
  import opened Options

  /** `char::is_whitespace`, of which only this is relied on. */
  type Whitespace = char -> bool

  ghost predicate Sane(space: Whitespace) {
    space(' ') && space('\t') && forall c :: space(c) ==> !IsDigit(c) && c !in "=-,bytesBYTES"
  }

  predicate IsOws(c: char) {
    c == ' ' || c == '\t'
  }

  // --- The elements -------------------------------------------

  /** Each piece between commas, trimmed of OWS, the empty ones dropped. */
  function Kept(piece: string): seq<string> {
    var written := Trim(piece, IsOws);
    if written == "" then [] else [written]
  }

  function ElementsFrom(text: string, element: string): seq<string> {
    if text == "" then Kept(element)
    else if text[0] == ',' then Kept(element) + ElementsFrom(text[1..], "")
    else ElementsFrom(text[1..], element + [text[0]])
  }

  /** The loop over the set's characters, with a comma after them. */
  method Elements(set_: string) returns (elements: seq<string>)
    ensures elements == ElementsFrom(set_, "")
  {
    elements := [];
    var element := "";
    var text := set_ + [','];
    for k := 0 to |text|
      invariant k <= |set_| ==> elements + ElementsFrom(set_[k..], element) == ElementsFrom(set_, "")
      invariant k > |set_| ==> elements == ElementsFrom(set_, "")
    {
      if k < |set_| {
        assert set_[k..][0] == text[k] && set_[k..][1..] == set_[k + 1..];
        Associative(elements, Kept(element), ElementsFrom(set_[k + 1..], ""));
      }
      if text[k] == ',' {
        var written := Trim(element, IsOws);
        if written != "" {
          elements := elements + [written];
        }
        element := "";
      } else {
        element := element + [text[k]];
      }
    }
  }

  // --- The field --------------------------------------------------------

  function FindEquals(text: string): Option<nat> {
    if text == "" then None
    else if text[0] == '=' then Some(0)
    else match FindEquals(text[1..]) case None => None case Some(k) => Some(k + 1)
  }

  function Lower(c: char): char {
    if 'A' <= c <= 'Z' then (c as int + 32) as char else c
  }

  /** `eq_ignore_ascii_case`. */
  predicate IsBytes(unit: string) {
    |unit| == 5 && Lower(unit[0]) == 'b' && Lower(unit[1]) == 'y' && Lower(unit[2]) == 't' && Lower(unit[3]) == 'e'
      && Lower(unit[4]) == 's'
  }

  function AllRead(elements: seq<string>): Reading {
    if elements == [] then Ok([])
    else match RangeSpec(elements[0])
      case None => Err(Malformed)
      case Some(spec) =>
        match AllRead(elements[1..])
        case Ok(specs) => Ok([spec] + specs)
        case Err(reason) => Err(reason)
  }

  /** What follows the unit, in the order it is refused. */
  function ReadSet(elements: seq<string>): Reading {
    if elements == [] then Err(Malformed)
    else if |elements| > MAX_RANGES then Err(TooManyRanges)
    else AllRead(elements)
  }

  function Recognised(field: string, space: Whitespace): Reading {
    var trimmed := Trim(field, space);
    match FindEquals(trimmed)
    case None => Err(Malformed)
    case Some(equals) =>
      FindEqualsIsInside(trimmed);
      if !IsBytes(Trim(trimmed[..equals], space)) then Err(UnknownUnit)
      else ReadSet(ElementsFrom(trimmed[equals + 1..], ""))
  }

  lemma {:induction false} FindEqualsIsInside(text: string)
    ensures FindEquals(text).Some? ==> FindEquals(text).value < |text|
  {
    if text != "" {
      FindEqualsIsInside(text[1..]);
    }
  }

  method Recognise(field: string, space: Whitespace) returns (reading: Reading)
    ensures reading == Recognised(field, space)
  {
    var trimmed := Trim(field, space);
    var equals := FindEquals(trimmed);
    if equals == None {
      return Err(Malformed);
    }
    FindEqualsIsInside(trimmed);
    if !IsBytes(Trim(trimmed[..equals.value], space)) {
      return Err(UnknownUnit);
    }
    var elements := Elements(trimmed[equals.value + 1..]);
    if elements == [] {
      return Err(Malformed);
    }
    if |elements| > MAX_RANGES {
      return Err(TooManyRanges);
    }
    var specs := [];
    for k := 0 to |elements|
      invariant AllRead(elements)
        == match AllRead(elements[k..]) case Ok(more) => Ok(specs + more) case Err(reason) => Err(reason)
    {
      assert elements[k..][0] == elements[k] && elements[k..][1..] == elements[k + 1..];
      var spec := ReadRangeSpec(elements[k]);
      if spec == None {
        return Err(Malformed);
      }
      assert forall more: seq<Spec> :: specs + ([spec.value] + more) == (specs + [spec.value]) + more;
      specs := specs + [spec.value];
    }
    reading := Ok(specs);
  }

  // --- Recognising inverts printing -------------------------------------

  /** A list element between OWS: a range-spec, or nothing. */
  datatype Element = Element(before: string, spec: Option<SpecText>, after: string)

  function PrintElement(element: Element): string {
    element.before + (if element.spec.Some? then Print(element.spec.value) else "") + element.after
  }

  function PrintSet(elements: seq<Element>): string
    requires elements != []
  {
    if |elements| == 1 then PrintElement(elements[0]) else PrintElement(elements[0]) + ("," + PrintSet(elements[1..]))
  }

  ghost predicate WellPadded(element: Element) {
    AllDropped(element.before, IsOws) && AllDropped(element.after, IsOws)
      && (element.spec.Some? ==> WellSpelled(element.spec.value))
  }

  ghost predicate AllPadded(elements: seq<Element>) {
    forall k :: 0 <= k < |elements| ==> WellPadded(elements[k])
  }

  /** Nothing but a range-spec or a comma at the end: OWS there is the field's. */
  predicate EndsTight(elements: seq<Element>)
    requires elements != []
  {
    var last := elements[|elements| - 1];
    last.after == "" && (last.spec.None? ==> last.before == "")
  }

  /** The range-specs listed. */
  function SpecsOf(elements: seq<Element>): seq<SpecText> {
    if elements == [] then []
    else (if elements[0].spec.Some? then [elements[0].spec.value] else []) + SpecsOf(elements[1..])
  }

  predicate AllWellSpelled(specs: seq<SpecText>) {
    forall k :: 0 <= k < |specs| ==> WellSpelled(specs[k])
  }

  lemma {:induction false} PaddedSpecs(elements: seq<Element>)
    requires AllPadded(elements)
    ensures AllWellSpelled(SpecsOf(elements))
  {
    if elements != [] {
      PaddedSpecs(elements[1..]);
      assert WellPadded(elements[0]);
    }
  }

  /** What the specs say over unbounded integers. */
  function Said(specs: seq<SpecText>): (said: seq<Spec>)
    requires AllWellSpelled(specs)
    ensures |said| == |specs| && forall k :: 0 <= k < |specs| ==> said[k] == Meant(specs[k])
  {
    if specs == [] then [] else [Meant(specs[0])] + Said(specs[1..])
  }

  predicate SomeInvalid(specs: seq<Spec>) {
    exists k :: 0 <= k < |specs| && Invalid(specs[k])
  }

  /** Ignored where one of `specs` is invalid, read as they stand otherwise. */
  function Outcome(specs: seq<Spec>): Reading {
    if SomeInvalid(specs) then Err(Malformed) else Ok(specs)
  }

  lemma {:induction false} OutcomeOfMore(spec: Spec, more: seq<Spec>)
    ensures SomeInvalid([spec] + more) == (Invalid(spec) || SomeInvalid(more))
  {
    var whole := [spec] + more;
    if Invalid(spec) {
      assert Invalid(whole[0]);
    } else if SomeInvalid(more) {
      var k :| 0 <= k < |more| && Invalid(more[k]);
      assert Invalid(whole[k + 1]);
    } else {
      assert forall k :: 1 <= k < |whole| ==> whole[k] == more[k - 1];
    }
  }

  lemma {:induction false} SpecHasNoPads(spec: SpecText)
    requires WellSpelled(spec)
    ensures Print(spec) != ""
    ensures forall k :: 0 <= k < |Print(spec)| ==> IsDigit(Print(spec)[k]) || Print(spec)[k] == '-'
  {
  }

  lemma {:induction false} ElementIsKept(element: Element)
    requires WellPadded(element)
    ensures Kept(PrintElement(element)) == if element.spec.Some? then [Print(element.spec.value)] else []
    ensures ',' !in PrintElement(element)
  {
    var core := if element.spec.Some? then Print(element.spec.value) else "";
    if element.spec.Some? {
      SpecHasNoPads(element.spec.value);
    }
    assert forall k :: 0 <= k < |core| ==> !IsOws(core[k]) && core[k] != ',';
    TrimPads(element.before, core, element.after, IsOws);
  }

  lemma {:induction false} ElementsPass(text: string, rest: string, element: string)
    requires ',' !in text && (rest != "" ==> rest[0] == ',')
    ensures ElementsFrom(text + rest, element) ==
      if rest == "" then Kept(element + text) else Kept(element + text) + ElementsFrom(rest[1..], "")
  {
    if text == "" {
      assert text + rest == rest && element + text == element;
    } else {
      TailOfConcat(text, rest);
      ElementsPass(text[1..], rest, element + [text[0]]);
      assert (element + [text[0]]) + text[1..] == element + text;
    }
  }

  function Prints(specs: seq<SpecText>): (prints: seq<string>)
    ensures |prints| == |specs|
  {
    if specs == [] then [] else [Print(specs[0])] + Prints(specs[1..])
  }

  lemma {:induction false} ElementsOfSet(elements: seq<Element>)
    requires elements != [] && AllPadded(elements)
    ensures ElementsFrom(PrintSet(elements), "") == Prints(SpecsOf(elements))
  {
    hide Kept, PrintElement, Print;
    var first := PrintElement(elements[0]);
    ElementIsKept(elements[0]);
    FirstSpec(elements);
    assert "" + first == first;
    if |elements| == 1 {
      ElementsPass(first, "", "");
      assert first + "" == first;
    } else {
      var rest := "," + PrintSet(elements[1..]);
      ElementsPass(first, rest, "");
      assert rest[1..] == PrintSet(elements[1..]);
      ElementsOfSet(elements[1..]);
    }
  }

  lemma {:induction false} FirstSpec(elements: seq<Element>)
    requires elements != []
    ensures var kept := if elements[0].spec.Some? then [Print(elements[0].spec.value)] else [];
      Prints(SpecsOf(elements)) == kept + Prints(SpecsOf(elements[1..]))
    ensures |elements| == 1 ==> SpecsOf(elements[1..]) == []
  {
    var more := SpecsOf(elements[1..]);
    if elements[0].spec.Some? {
      TailOfConcat([elements[0].spec.value], more);
    } else {
      assert [] + more == more && [] + Prints(more) == Prints(more);
    }
  }

  lemma {:induction false} AllReadPrints(specs: seq<SpecText>)
    requires AllWellSpelled(specs)
    ensures AllRead(Prints(specs)) == Outcome(SaturatedSpecs(Said(specs)))
  {
    assert !SomeInvalid([]) && SaturatedSpecs([]) == [];
    hide RangeSpec, Print, Meant, SaturatedSpec, SaturatedSpecs, Invalid, WellSpelled, SomeInvalid;
    if specs != [] {
      RangeSpecReads(specs[0]);
      AllReadPrints(specs[1..]);
      OutcomeOfMore(SaturatedSpec(Meant(specs[0])), SaturatedSpecs(Said(specs[1..])));
      assert Prints(specs)[1..] == Prints(specs[1..]);
      SaturatedFirst(Meant(specs[0]), Said(specs[1..]));
    }
  }

  lemma {:induction false} SaturatedFirst(spec: Spec, more: seq<Spec>)
    ensures SaturatedSpecs([spec] + more) == [SaturatedSpec(spec)] + SaturatedSpecs(more)
  {
  }

  /** `unit`, `=` and the set, with whitespace before and after the field and around
      the unit. */
  function PrintField(lead: string, unit: string, gap: string, elements: seq<Element>, tail: string): string
    requires elements != []
  {
    lead + (unit + gap + "=" + PrintSet(elements)) + tail
  }

  lemma {:induction false} EqualsFoundAt(text: string, rest: string)
    requires '=' !in text
    ensures FindEquals(text + "=" + rest) == Some(|text|)
  {
    var whole := text + "=" + rest;
    if text != "" {
      assert whole[1..] == text[1..] + "=" + rest && whole[0] == text[0];
      EqualsFoundAt(text[1..], rest);
    }
  }

  lemma {:induction false} SetEndsTight(elements: seq<Element>)
    requires elements != [] && AllPadded(elements) && EndsTight(elements)
    ensures var text := PrintSet(elements);
      text != "" ==> IsDigit(text[|text| - 1]) || text[|text| - 1] == '-' || text[|text| - 1] == ','
  {
    if |elements| == 1 {
      var element := elements[0];
      assert WellPadded(element);
      if element.spec.Some? {
        SpecHasNoPads(element.spec.value);
        assert PrintSet(elements) == element.before + Print(element.spec.value);
      } else {
        assert PrintSet(elements) == "";
      }
    } else {
      hide PrintElement;
      SetEndsTight(elements[1..]);
      var rest := "," + PrintSet(elements[1..]);
      assert PrintSet(elements) == PrintElement(elements[0]) + rest;
    }
  }

  /** The main result: a field that lists range-specs, in any case, under any
      whitespace the reader allows and with empty elements anywhere, is malformed if it
      names none, refused if it names more than eight, and otherwise read as those
      specs, saturated, or malformed if one of them then is invalid. */
  lemma {:induction false} RecogniseInvertsPrinting(
      lead: string, unit: string, gap: string, elements: seq<Element>, tail: string, space: Whitespace)
    requires Sane(space) && AllDropped(lead, space) && AllDropped(gap, space) && AllDropped(tail, space)
      && IsBytes(unit)
    requires elements != [] && AllPadded(elements) && EndsTight(elements)
    ensures AllWellSpelled(SpecsOf(elements))
    ensures var reading, specs := Recognised(PrintField(lead, unit, gap, elements, tail), space), SpecsOf(elements);
      && (specs == [] ==> reading == Err(Malformed))
      && (|specs| > 8 ==> reading == Err(TooManyRanges))
      && (1 <= |specs| <= 8 ==> reading == Outcome(SaturatedSpecs(Said(specs))))
  {
    PaddedSpecs(elements);
    hide PrintSet, ElementsFrom, AllRead, Said, Trim, FindEquals, WellPadded, Outcome, AllDropped, Sane, SpecsOf,
      AllWellSpelled, EndsTight;
    FieldTrims(lead, unit, gap, elements, tail, space);
    UnitTrims(unit, gap, PrintSet(elements), space);
    ElementsOfSet(elements);
    AllReadPrints(SpecsOf(elements));
  }

  /** A unit that is no `bytes` is refused before its set is looked at. */
  lemma {:induction false} OtherUnitsAreUnknown(unit: string, set_: string, space: Whitespace)
    requires '=' !in unit && unit != "" && !space(unit[0]) && !space(unit[|unit| - 1]) && !IsBytes(unit)
    requires set_ != "" && !space(set_[|set_| - 1])
    ensures Recognised(unit + "=" + set_, space) == Err(UnknownUnit)
  {
    hide Trim, FindEquals, IsBytes;
    var core := unit + "=" + set_;
    EqualsFoundAt(unit, set_);
    assert "" + core + "" == core && core[0] == unit[0] && core[|core| - 1] == set_[|set_| - 1];
    TrimPads("", core, "", space);
    assert core[..|unit|] == unit && "" + unit + "" == unit;
    TrimPads("", unit, "", space);
  }

  lemma {:induction false} FieldTrims(
      lead: string, unit: string, gap: string, elements: seq<Element>, tail: string, space: Whitespace)
    requires Sane(space) && AllDropped(lead, space) && AllDropped(tail, space) && IsBytes(unit)
    requires elements != [] && AllPadded(elements) && EndsTight(elements)
    ensures Trim(PrintField(lead, unit, gap, elements, tail), space) == unit + gap + "=" + PrintSet(elements)
  {
    SetEndsTight(elements);
    UnitHasNoSpace(unit, space);
    var set_ := PrintSet(elements);
    assert set_ != "" ==> !space(set_[|set_| - 1]);
    assert !space('=');
    hide PrintSet, Trim, IsBytes, Sane, AllPadded, AllDropped, EndsTight;
    FieldIs(lead, unit, gap, elements, tail);
    Trimmed(lead, unit, gap, set_, tail, space);
  }

  lemma {:induction false} FieldIs(lead: string, unit: string, gap: string, elements: seq<Element>, tail: string)
    requires elements != []
    ensures PrintField(lead, unit, gap, elements, tail) == lead + (unit + gap + "=" + PrintSet(elements)) + tail
  {
    hide PrintSet;
  }

  lemma {:induction false} Trimmed(
      lead: string, unit: string, gap: string, set_: string, tail: string, space: Whitespace)
    requires AllDropped(lead, space) && AllDropped(tail, space)
    requires unit != "" && !space(unit[0]) && !space('=') && (set_ != "" ==> !space(set_[|set_| - 1]))
    ensures Trim(lead + (unit + gap + "=" + set_) + tail, space) == unit + gap + "=" + set_
  {
    hide Trim, AllDropped;
    var core := unit + gap + "=" + set_;
    assert core[0] == unit[0];
    assert core[|core| - 1] == if set_ == "" then '=' else set_[|set_| - 1];
    TrimPads(lead, core, tail, space);
  }

  lemma {:induction false} UnitTrims(unit: string, gap: string, set_: string, space: Whitespace)
    requires Sane(space) && AllDropped(gap, space) && IsBytes(unit)
    ensures var trimmed, equals := unit + gap + "=" + set_, |unit + gap|;
      && FindEquals(trimmed) == Some(equals)
      && Trim(trimmed[..equals], space) == unit
      && trimmed[equals + 1..] == set_
  {
    hide Trim, FindEquals;
    var head := unit + gap;
    var trimmed := head + "=" + set_;
    UnitHasNoSpace(unit, space);
    EqualsFoundAt(head, set_);
    assert trimmed[..|head|] == head && trimmed[|head| + 1..] == set_;
    assert "" + unit + gap == head;
    TrimPads("", unit, gap, space);
  }

  /** End to end: such a field selects from a representation what its unbounded
      reading selects, whenever that reading calls no spec invalid. */
  lemma {:induction false} FieldSelectsUnbounded(
      lead: string, unit: string, gap: string, elements: seq<Element>, tail: string, space: Whitespace, length: nat)
    requires Sane(space) && AllDropped(lead, space) && AllDropped(gap, space) && AllDropped(tail, space)
      && IsBytes(unit)
    requires elements != [] && AllPadded(elements) && EndsTight(elements)
    requires 1 <= |SpecsOf(elements)| <= 8 && length < 0x1_0000_0000_0000_0000
    ensures AllWellSpelled(SpecsOf(elements))
    ensures var said := Said(SpecsOf(elements));
      !SomeInvalid(said) ==>
        Select(Recognised(PrintField(lead, unit, gap, elements, tail), space), length) == Select(Ok(said), length)
  {
    RecogniseInvertsPrinting(lead, unit, gap, elements, tail, space);
    hide Recognised, PrintField, Sane, AllPadded, AllDropped, IsBytes, Meant, FirstSatisfied, SpecsOf, EndsTight,
      AllWellSpelled;
    var said := Said(SpecsOf(elements));
    if !SomeInvalid(said) {
      forall k | 0 <= k < |said| ensures !Invalid(SaturatedSpecs(said)[k]) {
        SaturationKeepsValidityIff(said[k]);
      }
      if length > 0 {
        SaturationIsInvisible(said, length);
      }
    }
  }

  lemma {:induction false} UnitHasNoSpace(unit: string, space: Whitespace)
    requires Sane(space) && IsBytes(unit)
    ensures |unit| == 5 && !space(unit[0]) && !space(unit[4]) && '=' !in unit
  {
    assert forall k :: 0 <= k < 5 ==> unit[k] in "bytesBYTES" by {
      LowerCases(unit[0], 'b'); LowerCases(unit[1], 'y'); LowerCases(unit[2], 't');
      LowerCases(unit[3], 'e'); LowerCases(unit[4], 's');
    }
  }

  lemma {:induction false} LowerCases(c: char, lower: char)
    requires Lower(c) == lower && 'a' <= lower <= 'z'
    ensures c == lower || c == (lower as int - 32) as char
  {
  }

  lemma {:induction false} TrimAddsNothing(text: string, drop: char -> bool, c: char)
    requires c !in text
    ensures c !in TrimStart(text, drop) && c !in TrimEnd(text, drop)
    decreases |text|
  {
    if text != "" {
      TrimAddsNothing(text[1..], drop, c);
      TrimAddsNothing(text[..|text| - 1], drop, c);
    }
  }

  /** A field with no `=` is malformed. */
  lemma {:induction false} NoEqualsIsMalformed(field: string, space: Whitespace)
    requires '=' !in field
    ensures Recognised(field, space) == Err(Malformed)
  {
    TrimAddsNothing(field, space, '=');
    TrimAddsNothing(TrimStart(field, space), space, '=');
    NoEqualsIsFound(Trim(field, space));
  }

  lemma {:induction false} NoEqualsIsFound(text: string)
    requires '=' !in text
    ensures FindEquals(text) == None
  {
    if text != "" {
      NoEqualsIsFound(text[1..]);
    }
  }

  /** Of at most eight elements, one that is no range-spec makes the field malformed. */
  lemma {:induction false} StrayElementIsMalformed(elements: seq<string>, k: nat)
    requires k < |elements| <= 8 && RangeSpec(elements[k]) == None
    ensures ReadSet(elements) == Err(Malformed)
  {
    StrayIsNotRead(elements, k);
  }

  lemma {:induction false} StrayIsNotRead(elements: seq<string>, k: nat)
    requires k < |elements| && RangeSpec(elements[k]) == None
    ensures AllRead(elements) == Err(Malformed)
  {
    hide RangeSpec;
    if k > 0 {
      if RangeSpec(elements[0]).Some? {
        StrayIsNotRead(elements[1..], k - 1);
      }
    }
  }

  /** The unit in any ASCII case, and no other. */
  lemma {:induction false} UnitIsBytesIff(unit: string)
    ensures IsBytes(unit) <==>
      && |unit| == 5
      && unit[0] in {'b', 'B'} && unit[1] in {'y', 'Y'} && unit[2] in {'t', 'T'}
      && unit[3] in {'e', 'E'} && unit[4] in {'s', 'S'}
  {
    if IsBytes(unit) {
      LowerCases(unit[0], 'b'); LowerCases(unit[1], 'y'); LowerCases(unit[2], 't');
      LowerCases(unit[3], 'e'); LowerCases(unit[4], 's');
    }
  }

  /** `bytes=0-4, \t-500`: the first five octets, or the last five hundred. */
  lemma {:induction false} TwoSpecsAreRead(space: Whitespace)
    requires Sane(space)
    ensures Recognised("bytes=0-4, \t-500", space) == Ok([Spec(Some(0), Some(4)), Spec(None, Some(500))])
  {
    var first := Element("", Some(IntRange("0", Some("4"))), "");
    var second := Element(" \t", Some(SuffixRange("500")), "");
    TwoAreWritten(first, second);
    TwoAreSaid(first, second);
    hide PrintField, Recognised, SpecsOf, Outcome, SaturatedSpecs, Said;
    RecogniseInvertsPrinting("", "bytes", "", [first, second], "", space);
  }

  lemma {:induction false} TwoAreWritten(first: Element, second: Element)
    requires first == Element("", Some(IntRange("0", Some("4"))), "")
    requires second == Element(" \t", Some(SuffixRange("500")), "")
    ensures AllPadded([first, second]) && EndsTight([first, second]) && IsBytes("bytes")
    ensures PrintField("", "bytes", "", [first, second], "") == "bytes=0-4, \t-500"
  {
    assert [first, second][1..] == [second];
    assert PrintElement(first) == "0-4" && PrintElement(second) == " \t-500";
    assert PrintSet([second]) == PrintElement(second);
    assert PrintSet([first, second]) == "0-4" + ("," + " \t-500");
  }

  lemma {:induction false} TwoAreSaid(first: Element, second: Element)
    requires first == Element("", Some(IntRange("0", Some("4"))), "")
    requires second == Element(" \t", Some(SuffixRange("500")), "")
    ensures |SpecsOf([first, second])| == 2 && AllWellSpelled(SpecsOf([first, second]))
    ensures Outcome(SaturatedSpecs(Said(SpecsOf([first, second]))))
         == Ok([Spec(Some(0), Some(4)), Spec(None, Some(500))])
  {
    var specs := SpecsOf([first, second]);
    assert [first, second][1..] == [second] && [second][1..] == [];
    assert SpecsOf([second]) == [second.spec.value];
    assert specs == [first.spec.value, second.spec.value];
    assert Decimal("0") == 0 && Decimal("4") == 4 by { assert "0"[..0] == "" && "4"[..0] == ""; }
    assert Decimal("500") == 500 by {
      assert "500"[..2] == "50" && "50"[..1] == "5" && "5"[..0] == "";
    }
    var said := Said(specs);
    assert SaturatedSpecs(said) == [Spec(Some(0), Some(4)), Spec(None, Some(500))];
  }
}
