/** The `Range` recogniser and selection of fuzz/fuzz_targets/range.rs (sections
    14.1.1 and 14.1.2 of RFC 9110). */
module ByteRange {
  import opened Numerals
  import opened Options

  const MAX_RANGES: nat := 8
  const U64_MAX: nat := 0xFFFF_FFFF_FFFF_FFFF

  /** `(Some(first), last)` for an int-range, `(None, Some(length))` for a suffix. */
  datatype Spec = Spec(first: Option<nat>, last: Option<nat>)

  datatype Ignored = Malformed | UnknownUnit | TooManyRanges | EmptyRepresentation

  datatype Reading = Ok(specs: seq<Spec>) | Err(reason: Ignored)

  datatype Selection =
    | Whole(reason: Ignored)
    | Part(first: nat, last: nat, completeLength: nat)
    | NotSatisfiable(completeLength: nat)

  // --- Numerals ---------------------------------------------------------

  function Saturated(n: nat): nat {
    if n <= U64_MAX then n else U64_MAX
  }

  /** The end of the run of digits from `i` on. */
  function DigitsEnd(text: string, i: nat): (end: nat)
    requires i <= |text|
    ensures i <= end <= |text|
    ensures forall k :: i <= k < end ==> IsDigit(text[k])
    ensures end < |text| ==> !IsDigit(text[end])
    decreases |text| - i
  {
    if i < |text| && IsDigit(text[i]) then DigitsEnd(text, i + 1) else i
  }

  /** What the run of digits from `i` on is read as, if there is one. */
  function NumberAt(text: string, i: nat): Option<nat>
    requires i <= |text|
  {
    var end := DigitsEnd(text, i);
    if end == i then None else Some(Saturated(Decimal(text[i..end])))
  }

  /** `digits`: saturating at every digit saturates the whole numeral. */
  method ReadDigits(text: string, i: nat) returns (value: Option<nat>, end: nat)
    requires i <= |text|
    ensures end == DigitsEnd(text, i) && value == NumberAt(text, i)
  {
    value, end := None, i;
    while end < |text| && IsDigit(text[end])
      invariant i <= end <= |text| && DigitsEnd(text, i) == DigitsEnd(text, end)
      invariant forall k :: i <= k < end ==> IsDigit(text[k])
      invariant value == if end == i then None else Some(Saturated(Decimal(text[i..end])))
    {
      var digit := text[end] as int - '0' as int;
      var sofar := if value.Some? then value.value else 0;
      assert text[i..end + 1][..end - i] == text[i..end];
      value := Some(if sofar * 10 + digit <= U64_MAX then sofar * 10 + digit else U64_MAX);
      end := end + 1;
    }
  }

  // --- One range-spec ---------------------------------------------------

  /** `range_spec`: `None` where `element` is no range-spec or is invalid. */
  function RangeSpec(element: string): Option<Spec> {
    var dash := DigitsEnd(element, 0);
    if dash == |element| || element[dash] != '-' then None
    else
      var end := DigitsEnd(element, dash + 1);
      if end != |element| then None
      else
        match (NumberAt(element, 0), NumberAt(element, dash + 1))
        case (None, None) => None
        case (None, Some(length)) => Some(Spec(None, Some(length)))
        case (Some(first), Some(last)) => if last < first then None else Some(Spec(Some(first), Some(last)))
        case (Some(first), None) => Some(Spec(Some(first), None))
  }

  method ReadRangeSpec(element: string) returns (spec: Option<Spec>)
    ensures spec == RangeSpec(element)
  {
    var first, dash := ReadDigits(element, 0);
    if dash == |element| || element[dash] != '-' {
      return None;
    }
    var last, end := ReadDigits(element, dash + 1);
    if end < |element| {
      return None;
    }
    match (first, last)
    case (None, None) => spec := None;
    case (None, Some(length)) => spec := Some(Spec(None, Some(length)));
    case (Some(f), Some(l)) => spec := if l < f then None else Some(Spec(Some(f), Some(l)));
    case (Some(f), None) => spec := Some(Spec(Some(f), None));
  }

  /** A range-spec, as section 14.1.1 writes one. */
  datatype SpecText = IntRange(first: string, last: Option<string>) | SuffixRange(length: string)

  predicate WellSpelled(spec: SpecText) {
    match spec
    case IntRange(first, last) => Numeral(first) && (last.Some? ==> Numeral(last.value))
    case SuffixRange(length) => Numeral(length)
  }

  function Print(spec: SpecText): string {
    match spec
    case IntRange(first, None) => first + "-"
    case IntRange(first, Some(last)) => first + "-" + last
    case SuffixRange(length) => "-" + length
  }

  /** What it says, over unbounded integers. */
  function Meant(spec: SpecText): Spec
    requires WellSpelled(spec)
  {
    match spec
    case IntRange(first, None) => Spec(Some(Decimal(first)), None)
    case IntRange(first, Some(last)) => Spec(Some(Decimal(first)), Some(Decimal(last)))
    case SuffixRange(length) => Spec(None, Some(Decimal(length)))
  }

  function SaturatedPosition(position: Option<nat>): Option<nat> {
    match position
    case None => None
    case Some(n) => Some(Saturated(n))
  }

  function SaturatedSpec(spec: Spec): Spec {
    Spec(SaturatedPosition(spec.first), SaturatedPosition(spec.last))
  }

  /** Section 14.1.1's *invalid*: a last position below the first. */
  predicate Invalid(spec: Spec) {
    spec.first.Some? && spec.last.Some? && spec.last.value < spec.first.value
  }

  lemma {:induction false} DigitsEndAt(text: string, i: nat, end: nat)
    requires i <= end <= |text| && (end < |text| ==> !IsDigit(text[end]))
    requires forall k :: i <= k < end ==> IsDigit(text[k])
    ensures DigitsEnd(text, i) == end
    decreases end - i
  {
    if i < end {
      DigitsEndAt(text, i + 1, end);
    }
  }

  lemma {:induction false} NumberReads(text: string, i: nat, digits: string)
    requires i + |digits| <= |text| && text[i..i + |digits|] == digits && AllDigits(digits)
    requires i + |digits| == |text| || !IsDigit(text[i + |digits|])
    ensures DigitsEnd(text, i) == i + |digits|
    ensures NumberAt(text, i) == if digits == "" then None else Some(Saturated(Decimal(digits)))
  {
    assert forall k :: i <= k < i + |digits| ==> text[k] == digits[k - i];
    DigitsEndAt(text, i, i + |digits|);
  }

  lemma {:induction false} DashedReads(before: string, after: string)
    requires AllDigits(before) && AllDigits(after)
    ensures var text := before + "-" + after;
      && DigitsEnd(text, 0) == |before| && DigitsEnd(text, |before| + 1) == |text|
      && NumberAt(text, 0) == (if before == "" then None else Some(Saturated(Decimal(before))))
      && NumberAt(text, |before| + 1) == (if after == "" then None else Some(Saturated(Decimal(after))))
  {
    hide NumberAt;
    var text := before + "-" + after;
    NumberReads(text, 0, before);
    assert text[|before| + 1..|text|] == after;
    NumberReads(text, |before| + 1, after);
  }

  /** Reading what a range-spec writes gives what it says, saturated, unless that is
      invalid. */
  lemma {:induction false} RangeSpecReads(spec: SpecText)
    requires WellSpelled(spec)
    ensures RangeSpec(Print(spec)) ==
      if Invalid(SaturatedSpec(Meant(spec))) then None else Some(SaturatedSpec(Meant(spec)))
  {
    hide NumberAt, Decimal;
    match spec
    case IntRange(first, None) =>
      DashedReads(first, "");
      assert first + "-" + "" == Print(spec);
    case IntRange(first, Some(last)) =>
      DashedReads(first, last);
    case SuffixRange(length) =>
      DashedReads("", length);
      assert "" + "-" + length == Print(spec);
  }

  /** Nothing else is read as one. */
  lemma {:induction false} OnlyRangeSpecsRead(element: string) returns (spec: SpecText)
    requires RangeSpec(element).Some?
    ensures WellSpelled(spec) && Print(spec) == element
  {
    var dash := DigitsEnd(element, 0);
    var first, last := element[..dash], element[dash + 1..];
    assert element == first + "-" + last;
    spec :=
      if dash == 0 then SuffixRange(last)
      else if last == "" then IntRange(first, None)
      else IntRange(first, Some(last));
  }

  /** Saturating calls a spec invalid exactly when the unbounded reading does, but
      where the last position, below the first, is past 64 bits itself. */
  lemma {:induction false} SaturationKeepsValidityIff(spec: Spec)
    ensures (Invalid(SaturatedSpec(spec)) <==> Invalid(spec))
      <==> !(spec.first.Some? && spec.last.Some? && U64_MAX <= spec.last.value < spec.first.value)
  {
  }

  /** Such a spec: two positions past 64 bits, in the wrong order, read as one. */
  lemma {:induction false} SaturationHidesInvalid()
    ensures var spec := Spec(Some(U64_MAX + 1), Some(U64_MAX));
      Invalid(spec) && !Invalid(SaturatedSpec(spec))
  {
  }

  // --- Selection --------------------------------------------------------

  /** `satisfied`. */
  function Satisfied(spec: Spec, length: nat): Option<(nat, nat)>
    requires length > 0
  {
    var end := length - 1;
    match (spec.first, spec.last)
    case (Some(first), None) => if first >= length then None else Some((first, end))
    case (Some(first), Some(last)) => if first >= length then None else Some((first, if last <= end then last else end))
    case (None, Some(suffix)) =>
      if suffix == 0 then None else Some((length - (if suffix <= length then suffix else length), end))
    case (None, None) => None
  }

  /** Section 14.1.2: whether `spec` asks for octet `k` of `length`. */
  predicate Asks(spec: Spec, length: nat, k: nat) {
    && k < length
    && match (spec.first, spec.last)
       case (Some(first), None) => first <= k
       case (Some(first), Some(last)) => first <= k <= last
       case (None, Some(suffix)) => length <= k + suffix
       case (None, None) => false
  }

  /** A spec is satisfied by exactly the octets it asks for: there is a part where
      it asks for any, and the part, within the representation, is those. */
  lemma {:induction false} SatisfiedIsAsked(spec: Spec, length: nat)
    requires length > 0 && !Invalid(spec)
    ensures Satisfied(spec, length).Some? <==> exists k: nat :: Asks(spec, length, k)
    ensures Satisfied(spec, length).Some? ==>
      var (first, last) := Satisfied(spec, length).value;
      first <= last < length && forall k: nat :: Asks(spec, length, k) <==> first <= k <= last
  {
    if Satisfied(spec, length).Some? {
      var (first, last) := Satisfied(spec, length).value;
      assert Asks(spec, length, first);
    }
  }

  /** The first spec that can be satisfied. */
  function FirstSatisfied(specs: seq<Spec>, length: nat): Option<(nat, nat)>
    requires length > 0
  {
    if specs == [] then None
    else if Satisfied(specs[0], length).Some? then Satisfied(specs[0], length)
    else FirstSatisfied(specs[1..], length)
  }

  function Select(reading: Reading, length: nat): Selection {
    match reading
    case Err(reason) => Whole(reason)
    case Ok(specs) =>
      if length == 0 then Whole(EmptyRepresentation)
      else match FirstSatisfied(specs, length)
        case Some((first, last)) => Part(first, last, length)
        case None => NotSatisfiable(length)
  }

  function SaturatedSpecs(specs: seq<Spec>): seq<Spec> {
    seq(|specs|, k requires 0 <= k < |specs| => SaturatedSpec(specs[k]))
  }

  lemma {:induction false} SaturationSelectsAlike(spec: Spec, length: nat)
    requires 0 < length <= U64_MAX
    ensures Satisfied(SaturatedSpec(spec), length) == Satisfied(spec, length)
  {
  }

  /** Of a representation no longer than 64 bits count, the saturated specs select
      what the unbounded ones do. */
  lemma {:induction false} SaturationIsInvisible(specs: seq<Spec>, length: nat)
    requires 0 < length <= U64_MAX
    ensures FirstSatisfied(SaturatedSpecs(specs), length) == FirstSatisfied(specs, length)
  {
    if specs != [] {
      SaturationSelectsAlike(specs[0], length);
      SaturationIsInvisible(specs[1..], length);
      assert SaturatedSpecs(specs)[1..] == SaturatedSpecs(specs[1..]);
    }
  }

  /** A selected part is one of a spec the field writes, and no earlier spec can be
      satisfied. */
  lemma {:induction false} FirstSatisfiedIsFirst(specs: seq<Spec>, length: nat) returns (k: nat)
    requires length > 0 && FirstSatisfied(specs, length).Some?
    ensures k < |specs| && Satisfied(specs[k], length) == FirstSatisfied(specs, length)
    ensures forall j :: 0 <= j < k ==> Satisfied(specs[j], length) == None
  {
    if Satisfied(specs[0], length).Some? {
      k := 0;
    } else {
      k := FirstSatisfiedIsFirst(specs[1..], length);
      k := k + 1;
      assert forall j :: 1 <= j < k ==> specs[j] == specs[1..][j - 1];
    }
  }

  /** A numeral of any length is read as its value, or as the greatest of 64 bits. */
  lemma {:induction false} PositionsHave64Bits(digits: string)
    requires Numeral(digits)
    ensures NumberAt(digits, 0) ==
      Some(if Decimal(digits) < 0x1_0000_0000_0000_0000 then Decimal(digits) else 18_446_744_073_709_551_615)
  {
    NumberReads(digits, 0, digits);
  }

  /** The octets from `first` to `last` are those the `k`-th spec asks for, and the
      specs before it ask for none. */
  ghost predicate IsFirstAsked(specs: seq<Spec>, length: nat, k: nat, first: nat, last: nat)
    requires k < |specs|
  {
    && first <= last < length
    && (forall octet: nat :: Asks(specs[k], length, octet) <==> first <= octet <= last)
    && forall j, octet: nat :: 0 <= j < k ==> !Asks(specs[j], length, octet)
  }

  /** Section 14.1.2, of a field's specs: what the first spec that asks for any octet
      asks for is the part selected; where none does, none is satisfiable. An empty
      representation, and a field that is ignored, are answered whole. */
  lemma {:induction false} SelectionIsAsked(specs: seq<Spec>, length: nat)
    requires forall k :: 0 <= k < |specs| ==> !Invalid(specs[k])
    ensures length == 0 ==> Select(Ok(specs), length) == Whole(EmptyRepresentation)
    ensures length > 0 && (forall k, octet: nat :: 0 <= k < |specs| ==> !Asks(specs[k], length, octet)) ==>
      Select(Ok(specs), length) == NotSatisfiable(length)
    ensures length > 0 && (exists k, octet: nat :: 0 <= k < |specs| && Asks(specs[k], length, octet)) ==>
      var part := Select(Ok(specs), length);
      && part.Part? && part.completeLength == length
      && exists k: nat :: k < |specs| && IsFirstAsked(specs, length, k, part.first, part.last)
    ensures forall reason :: Select(Err(reason), length) == Whole(reason)
  {
    if length > 0 {
      if FirstSatisfied(specs, length).Some? {
        var k := FirstSatisfiedIsFirst(specs, length);
        hide FirstSatisfied, Satisfied, Invalid;
        forall j | 0 <= j <= k { SatisfiedIsAsked(specs[j], length); }
        var (first, last) := Satisfied(specs[k], length).value;
        assert IsFirstAsked(specs, length, k, first, last);
        assert Asks(specs[k], length, first);
      } else {
        NoneIsSatisfied(specs, length);
        hide FirstSatisfied, Satisfied, Invalid;
        forall j | 0 <= j < |specs| { SatisfiedIsAsked(specs[j], length); }
      }
    }
  }

  lemma {:induction false} NoneIsSatisfied(specs: seq<Spec>, length: nat)
    requires length > 0 && FirstSatisfied(specs, length) == None
    ensures forall k :: 0 <= k < |specs| ==> Satisfied(specs[k], length) == None
  {
    if specs != [] {
      NoneIsSatisfied(specs[1..], length);
      assert forall k :: 1 <= k < |specs| ==> specs[k] == specs[1..][k - 1];
    }
  }
}
