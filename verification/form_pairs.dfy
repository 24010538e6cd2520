/** The form-encoded pair reader of fuzz/fuzz_targets/query.rs, against the URL
    Standard's serialiser (sections 5.1 and 5.2 of the WHATWG URL Standard). */
module FormPairs {
  import opened Sequences
  import opened Splitting
  import opened OctetStrings

  datatype Pair = Pair(name: Octets, value: Octets)

  const PLUS: Octet := '+' as int
  const SPACE: Octet := ' ' as int
  const PERCENT: Octet := '%' as int
  const AMPERSAND: Octet := '&' as int
  const EQUALS: Octet := '=' as int

  // --- Decoding one half ------------------------------------------------

  predicate IsHex(digit: Octet) {
    48 <= digit <= 57 || 65 <= digit <= 70 || 97 <= digit <= 102
  }

  /** `hex`, of a digit it reads. */
  function HexValue(digit: Octet): (value: nat)
    requires IsHex(digit)
    ensures value < 16
  {
    if digit <= 57 then digit - 48 else if digit <= 70 then digit - 55 else digit - 87
  }

  predicate EscapeAt(raw: Octets, at: nat) {
    at + 2 < |raw| && raw[at] == PERCENT && IsHex(raw[at + 1]) && IsHex(raw[at + 2])
  }

  function Unplussed(octet: Octet): Octet {
    if octet == PLUS then SPACE else octet
  }

  function Decoded(raw: Octets): Octets {
    if raw == [] then []
    else if EscapeAt(raw, 0) then [16 * HexValue(raw[1]) + HexValue(raw[2])] + Decoded(raw[3..])
    else [Unplussed(raw[0])] + Decoded(raw[1..])
  }

  /** `decode`. */
  method Decode(raw: Octets) returns (decoded: Octets)
    ensures decoded == Decoded(raw)
    ensures |decoded| <= |raw|
  {
    decoded := [];
    var at := 0;
    assert raw[0..] == raw;
    while at < |raw|
      invariant 0 <= at <= |raw| && |decoded| <= at
      invariant decoded + Decoded(raw[at..]) == Decoded(raw)
      decreases |raw| - at
    {
      var octet := if raw[at] == PLUS then SPACE else raw[at];
      ghost var more := raw[at..];
      if octet == PERCENT && at + 2 < |raw| && IsHex(raw[at + 1]) && IsHex(raw[at + 2]) {
        assert EscapeAt(more, 0) && more[3..] == raw[at + 3..];
        var named: Octet := 16 * HexValue(raw[at + 1]) + HexValue(raw[at + 2]);
        Associative(decoded, [named], Decoded(raw[at + 3..]));
        decoded := decoded + [named];
        at := at + 3;
      } else {
        assert !EscapeAt(more, 0) && more[1..] == raw[at + 1..];
        Associative(decoded, [octet], Decoded(raw[at + 1..]));
        decoded := decoded + [octet];
        at := at + 1;
      }
    }
  }

  /** A way to write one octet: as itself, a space as `+`, or `%` and two hex
      digits of either case. */
  datatype Unit = Plain(octet: Octet) | Plus | Escape(high: Octet, low: Octet)

  predicate WellFormed(unit: Unit) {
    match unit
    case Plain(octet) => octet != PLUS
    case Plus => true
    case Escape(high, low) => IsHex(high) && IsHex(low)
  }

  function UnitText(unit: Unit): Octets {
    match unit
    case Plain(octet) => [octet]
    case Plus => [PLUS]
    case Escape(high, low) => [PERCENT, high, low]
  }

  function UnitValue(unit: Unit): Octet
    requires WellFormed(unit)
  {
    match unit
    case Plain(octet) => octet
    case Plus => SPACE
    case Escape(high, low) => 16 * HexValue(high) + HexValue(low)
  }

  function Text(units: seq<Unit>): Octets {
    if units == [] then [] else UnitText(units[0]) + Text(units[1..])
  }

  function Values(units: seq<Unit>): Octets
    requires forall k :: 0 <= k < |units| ==> WellFormed(units[k])
  {
    if units == [] then [] else [UnitValue(units[0])] + Values(units[1..])
  }

  /** Units that a reader tells apart: a `%` standing for itself is followed by no
      two hex digits. */
  predicate Separable(units: seq<Unit>) {
    units == [] ||
    (WellFormed(units[0]) && (units[0] == Plain(PERCENT) ==> !EscapeAt(Text(units), 0)) && Separable(units[1..]))
  }

  lemma {:induction false} SeparableIsWellFormed(units: seq<Unit>)
    requires Separable(units)
    ensures forall k :: 0 <= k < |units| ==> WellFormed(units[k])
  {
    if units != [] {
      SeparableIsWellFormed(units[1..]);
      assert forall k :: 1 <= k < |units| ==> units[k] == units[1..][k - 1];
    }
  }

  function Escapes(units: seq<Unit>): nat {
    if units == [] then 0 else (if units[0].Escape? then 1 else 0) + Escapes(units[1..])
  }

  lemma {:induction false} UnitIsRead(unit: Unit, rest: Octets)
    requires WellFormed(unit) && (unit == Plain(PERCENT) ==> !EscapeAt(UnitText(unit) + rest, 0))
    ensures Decoded(UnitText(unit) + rest) == [UnitValue(unit)] + Decoded(rest)
  {
    var text := UnitText(unit) + rest;
    if unit.Escape? {
      assert text[3..] == rest;
    } else {
      assert text[1..] == rest && !EscapeAt(text, 0);
    }
  }

  /** Decoding reads every octet however it was written, and is shorter than its
      input by two octets an escape. */
  lemma {:induction false} DecodingReadsUnits(units: seq<Unit>)
    requires Separable(units) && forall k :: 0 <= k < |units| ==> WellFormed(units[k])
    ensures Decoded(Text(units)) == Values(units)
    ensures |Decoded(Text(units))| == |Text(units)| - 2 * Escapes(units)
  {
    if units != [] {
      hide Decoded, UnitValue;
      DecodingReadsUnits(units[1..]);
      UnitIsRead(units[0], Text(units[1..]));
    }
  }

  /** Every octet string is written in exactly such units. */
  lemma {:induction false} EveryTextIsUnits(raw: Octets) returns (units: seq<Unit>)
    ensures Separable(units) && Text(units) == raw
  {
    if raw == [] {
      units := [];
    } else if EscapeAt(raw, 0) {
      var more := EveryTextIsUnits(raw[3..]);
      units := [Escape(raw[1], raw[2])] + more;
      assert units[1..] == more && raw == [raw[0], raw[1], raw[2]] + raw[3..];
    } else {
      var more := EveryTextIsUnits(raw[1..]);
      units := [if raw[0] == PLUS then Plus else Plain(raw[0])] + more;
      assert units[1..] == more && raw == [raw[0]] + raw[1..];
    }
  }

  // --- Pairs ------------------------------------------------------------

  function FindEquals(raw: Octets): (at: nat)
    ensures at <= |raw| && EQUALS !in raw[..at] && (at < |raw| ==> raw[at] == EQUALS)
  {
    if raw == [] || raw[0] == EQUALS then 0 else 1 + FindEquals(raw[1..])
  }

  /** `split_once` and the two halves' decoding. */
  function ReadPair(piece: Octets): Pair {
    var at := FindEquals(piece);
    Pair(Decoded(piece[..at]), if at == |piece| then [] else Decoded(piece[at + 1..]))
  }

  function ReadPieces(pieces: seq<Octets>): seq<Pair> {
    if pieces == [] then []
    else (if pieces[0] == [] then [] else [ReadPair(pieces[0])]) + ReadPieces(pieces[1..])
  }

  /** The pairs a query is read as. */
  function ReadPairs(query: Octets): seq<Pair> {
    ReadPieces(Split<Octet>(query, AMPERSAND))
  }

  lemma {:induction false} PiecesReadInTurn(first: seq<Octets>, rest: seq<Octets>)
    ensures ReadPieces(first + rest) == ReadPieces(first) + ReadPieces(rest)
  {
    if first == [] {
      assert first + rest == rest;
    } else {
      TailOfConcat(first, rest);
      PiecesReadInTurn(first[1..], rest);
      Associative(if first[0] == [] then [] else [ReadPair(first[0])], ReadPieces(first[1..]), ReadPieces(rest));
    }
  }

  /** Two queries joined by `&` are read one after the other. */
  lemma {:induction false} QueriesReadInTurn(first: Octets, rest: Octets)
    ensures ReadPairs(first + [AMPERSAND] + rest) == ReadPairs(first) + ReadPairs(rest)
  {
    SplitAtSeparator<Octet>(first, rest, AMPERSAND);
    PiecesReadInTurn(Split<Octet>(first, AMPERSAND), Split<Octet>(rest, AMPERSAND));
  }

  // --- The serialiser ---------------------------------------------------

  /** The octets the form serialiser writes as themselves. */
  predicate Unreserved(octet: Octet) {
    48 <= octet <= 57 || 65 <= octet <= 90 || 97 <= octet <= 122 || octet in {42, 45, 46, 95}
  }

  function HexDigit(value: nat): (digit: Octet)
    requires value < 16
    ensures IsHex(digit) && HexValue(digit) == value
  {
    if value < 10 then 48 + value else 55 + value
  }

  function Serialised(octet: Octet): (unit: Unit)
    ensures WellFormed(unit) && UnitValue(unit) == octet && unit != Plain(PERCENT)
    ensures EQUALS !in UnitText(unit) && AMPERSAND !in UnitText(unit)
  {
    if octet == SPACE then Plus
    else if Unreserved(octet) then Plain(octet)
    else Escape(HexDigit(octet / 16), HexDigit(octet % 16))
  }

  function Serialise(octets: Octets): (units: seq<Unit>)
    ensures Separable(units)
  {
    if octets == [] then [] else [Serialised(octets[0])] + Serialise(octets[1..])
  }

  function SerialisePair(pair: Pair): Octets {
    Text(Serialise(pair.name)) + [EQUALS] + Text(Serialise(pair.value))
  }

  function SerialisePairs(pairs: seq<Pair>): Octets {
    if pairs == [] then []
    else if |pairs| == 1 then SerialisePair(pairs[0])
    else SerialisePair(pairs[0]) + [AMPERSAND] + SerialisePairs(pairs[1..])
  }

  lemma {:induction false} SerialisedIsRead(octets: Octets)
    ensures Decoded(Text(Serialise(octets))) == octets
    ensures EQUALS !in Text(Serialise(octets)) && AMPERSAND !in Text(Serialise(octets))
  {
    if octets != [] {
      var units := Serialise(octets);
      SerialisedIsRead(octets[1..]);
      assert units[1..] == Serialise(octets[1..]);
      SeparableIsWellFormed(units);
      DecodingReadsUnits(units);
      SeparableIsWellFormed(units[1..]);
      DecodingReadsUnits(units[1..]);
    }
  }

  lemma {:induction false} EqualsIsFound(name: Octets, value: Octets)
    requires EQUALS !in name
    ensures FindEquals(name + [EQUALS] + value) == |name|
  {
    if name != [] {
      assert (name + [EQUALS] + value)[1..] == name[1..] + [EQUALS] + value;
      EqualsIsFound(name[1..], value);
    }
  }

  lemma {:induction false} PairIsRead(pair: Pair)
    ensures ReadPairs(SerialisePair(pair)) == [pair]
  {
    var name, value, text := Text(Serialise(pair.name)), Text(Serialise(pair.value)), SerialisePair(pair);
    SerialisedIsRead(pair.name);
    SerialisedIsRead(pair.value);
    SplitOfOne<Octet>(text, AMPERSAND);
    EqualsIsFound(name, value);
    assert text[..|name|] == name && text[|name| + 1..] == value;
    assert ReadPieces([text][1..]) == [];
  }

  /** The round trip: every list of pairs is read back from what it serialises to. */
  lemma {:induction false} PairsAreRead(pairs: seq<Pair>)
    ensures ReadPairs(SerialisePairs(pairs)) == pairs
  {
    if pairs == [] {
      assert ReadPieces([[]][1..]) == [];
    } else if |pairs| == 1 {
      PairIsRead(pairs[0]);
    } else {
      PairIsRead(pairs[0]);
      PairsAreRead(pairs[1..]);
      QueriesReadInTurn(SerialisePair(pairs[0]), SerialisePairs(pairs[1..]));
    }
  }

  // --- In octets --------------------------------------------------------

  /** The hex digits are `0` to `9` and the first six letters in either case, and
      either case of a letter has one value. */
  lemma {:induction false} HexDigitsAre(k: nat)
    requires k < 16
    ensures forall digit: Octet :: IsHex(digit) && HexValue(digit) == k <==>
      digit == "0123456789abcdef"[k] as int || digit == "0123456789ABCDEF"[k] as int
  {
  }

  /** `%2f+%2F%`: a slash, a space, a slash and a percent sign. */
  lemma {:induction false} EscapesAreDecoded()
    ensures Decoded([0x25, 0x32, 0x66, 0x2B, 0x25, 0x32, 0x46, 0x25]) == [0x2F, 0x20, 0x2F, 0x25]
  {
    var units := [Escape(0x32, 0x66), Plus, Escape(0x32, 0x46), Plain(0x25)];
    assert units[1..] == [Plus, Escape(0x32, 0x46), Plain(0x25)];
    assert units[1..][1..] == [Escape(0x32, 0x46), Plain(0x25)];
    assert units[1..][1..][1..] == [Plain(0x25)];
    assert [Plain(0x25)][1..] == [];
    assert Text([Plain(0x25)]) == [0x25] && Values([Plain(0x25)]) == [0x25];
    DecodingReadsUnits(units);
  }

  /** A piece with no `=` is a name with an empty value; of several, the first ends the
      name. */
  lemma {:induction false} FirstEqualsEndsName(name: Octets, value: Octets)
    requires 0x3D !in name
    ensures ReadPair(name) == Pair(Decoded(name), [])
    ensures ReadPair(name + [0x3D] + value) == Pair(Decoded(name), Decoded(value))
  {
    EqualsIsFound(name, value);
    var piece := name + [0x3D] + value;
    assert piece[..|name|] == name && piece[|name| + 1..] == value;
    assert name[..|name|] == name;
    NoEquals(name);
  }

  lemma {:induction false} NoEquals(name: Octets)
    requires EQUALS !in name
    ensures FindEquals(name) == |name|
  {
    if name != [] {
      NoEquals(name[1..]);
    }
  }

  /** Empty pieces between `&` are no pairs. */
  lemma {:induction false} EmptyPiecesAreNoPairs(query: Octets)
    ensures ReadPairs([0x26] + query) == ReadPairs(query) && ReadPairs(query + [0x26]) == ReadPairs(query)
  {
    assert ReadPieces([[]][1..]) == [];
    assert ReadPairs([]) == [];
    QueriesReadInTurn([], query);
    QueriesReadInTurn(query, []);
    assert [] + [AMPERSAND] + query == [0x26] + query && query + [AMPERSAND] + [] == query + [0x26];
  }
}
