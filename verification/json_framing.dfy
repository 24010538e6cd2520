/** The record framing of fuzz/fuzz_targets/json_lines.rs: NDJSON, and the
    separator-prefixed sequences of section 2 of RFC 7464. */
module JsonFraming {
  import opened Sequences
  import opened Splitting
  import opened OctetStrings
  import opened Options

  const RECORD_SEPARATOR: Octet := 0x1e
  const NEWLINE: Octet := 0x0a

  /** What the JSON decoder says of a record: a value, a failure of the data, or no
      JSON at all. */
  datatype Verdict<V> = Decodes(value: V) | BadData | NotJson

  type Decoder<!V> = Octets -> Verdict<V>

  datatype Expected<V> = Value(value: V) | Schema(index: nat) | Syntax | TooLarge(limit: nat)

  // --- The chunks -------------------------------------------------------

  function Concatenated(chunks: seq<Octets>): Octets {
    if chunks == [] then [] else Concatenated(chunks[..|chunks| - 1]) + chunks[|chunks| - 1]
  }

  /** The loop over the stated lengths: the chunks are the body, however it is cut. */
  method Chunks(body: Octets, lengths: seq<nat>) returns (chunks: seq<Octets>)
    ensures |chunks| == |lengths| + 1 && Concatenated(chunks) == body
    ensures forall k :: 0 <= k < |lengths| ==> |chunks[k]| <= lengths[k]
    ensures forall k :: 0 <= k < |lengths| && |chunks[k]| < lengths[k] ==>
      forall j :: k < j < |chunks| ==> chunks[j] == []
  {
    chunks := [];
    var remaining := body;
    for k := 0 to |lengths|
      invariant |chunks| == k && Concatenated(chunks) + remaining == body
      invariant forall i :: 0 <= i < k ==> |chunks[i]| <= lengths[i]
      invariant forall i :: 0 <= i < k && |chunks[i]| < lengths[i] ==>
        remaining == [] && forall j :: i < j < k ==> chunks[j] == []
    {
      var length := if lengths[k] < |remaining| then lengths[k] else |remaining|;
      ConcatenatedAddsOne(chunks, remaining[..length]);
      assert remaining == remaining[..length] + remaining[length..];
      Associative(Concatenated(chunks), remaining[..length], remaining[length..]);
      chunks, remaining := chunks + [remaining[..length]], remaining[length..];
    }
    ConcatenatedAddsOne(chunks, remaining);
    chunks := chunks + [remaining];
  }

  lemma {:induction false} ConcatenatedAddsOne(chunks: seq<Octets>, chunk: Octets)
    ensures Concatenated(chunks + [chunk]) == Concatenated(chunks) + chunk
  {
    assert (chunks + [chunk])[..|chunks|] == chunks;
  }

  // --- Framing ----------------------------------------------------------

  predicate IsSpace(octet: Octet) {
    octet == 0x20 || octet == 0x09 || octet == 0x0a || octet == 0x0c || octet == 0x0d
  }

  /** `trim_ascii`. */
  function Trim(record: Octets): Octets {
    if record == [] then []
    else if IsSpace(record[0]) then Trim(record[1..])
    else if IsSpace(record[|record| - 1]) then Trim(record[..|record| - 1])
    else record
  }

  /** Each record as delimited; none where a sequence does not open with its
      separator. */
  datatype Delimited = Records(records: seq<Octets>) | Unopened

  function Delimit(sequence: bool, body: Octets): Delimited {
    if !sequence then Records(Split<Octet>(body, NEWLINE))
    else
      var pieces := Split<Octet>(body, RECORD_SEPARATOR);
      if pieces[0] == [] then Records(pieces[1..]) else Unopened
  }

  predicate EndsStream<V>(entry: Expected<V>) {
    entry.Syntax? || entry.TooLarge?
  }

  /** What one record reads as: nothing where it is blank. */
  function Entry<V>(record: Octets, index: nat, limit: nat, decode: Decoder<V>): Option<Expected<V>> {
    if |record| > limit then Some(TooLarge(limit))
    else if Trim(record) == [] then None
    else match decode(Trim(record))
      case Decodes(value) => Some(Value(value))
      case BadData => Some(Schema(index))
      case NotJson => Some(Syntax)
  }

  /** What the records read as, the first of them at `index`. */
  function Read<V>(records: seq<Octets>, index: nat, limit: nat, decode: Decoder<V>): seq<Expected<V>> {
    if records == [] then []
    else match Entry(records[0], index, limit, decode)
      case None => Read(records[1..], index, limit, decode)
      case Some(entry) => if EndsStream(entry) then [entry] else [entry] + Read(records[1..], index + 1, limit, decode)
  }

  function Framed<V>(sequence: bool, body: Octets, limit: nat, decode: Decoder<V>): seq<Expected<V>> {
    match Delimit(sequence, body)
    case Unopened => [Syntax]
    case Records(records) => Read(records, 0, limit, decode)
  }

  /** `whole`. */
  method Whole<V>(sequence: bool, body: Octets, limit: nat, decode: Decoder<V>) returns (read: seq<Expected<V>>)
    ensures read == Framed(sequence, body, limit, decode)
  {
    hide Trim, Split;
    var delimited: seq<Octets>;
    if sequence {
      var pieces := Split<Octet>(body, RECORD_SEPARATOR);
      if pieces[0] != [] {
        return [Syntax];
      }
      delimited := pieces[1..];
    } else {
      delimited := Split<Octet>(body, NEWLINE);
    }
    read := [];
    var index := 0;
    for k := 0 to |delimited|
      invariant read + Read(delimited[k..], index, limit, decode) == Read(delimited, 0, limit, decode)
    {
      ghost var more, before := delimited[k..], read;
      assert more[0] == delimited[k] && more[1..] == delimited[k + 1..];
      if |delimited[k]| > limit {
        read := read + [TooLarge(limit)];
        break;
      }
      var record := Trim(delimited[k]);
      if record == [] {
        continue;
      }
      match decode(record) {
        case Decodes(value) =>
          read := read + [Value(value)];
        case BadData =>
          read := read + [Schema(index)];
        case NotJson =>
          read := read + [Syntax];
          break;
      }
      index := index + 1;
      assert read == before + [read[|before|]];
      Associative(before, [read[|before|]], Read(more[1..], index, limit, decode));
    }
  }

  // --- What is read -----------------------------------------------------

  predicate Ended<V>(read: seq<Expected<V>>) {
    read != [] && EndsStream(read[|read| - 1])
  }

  /** Only the last entry ends the stream, and a schema failure's index is its place
      among the entries. */
  predicate InPlace<V>(read: seq<Expected<V>>, index: nat) {
    && (forall k :: 0 <= k < |read| - 1 ==> !EndsStream(read[k]))
    && (forall k :: 0 <= k < |read| && read[k].Schema? ==> read[k].index == index + k)
  }

  lemma {:induction false} ReadIsInPlace<V>(records: seq<Octets>, index: nat, limit: nat, decode: Decoder<V>)
    ensures InPlace(Read(records, index, limit, decode), index)
  {
    if records != [] {
      ReadIsInPlace(records[1..], index, limit, decode);
      ReadIsInPlace(records[1..], index + 1, limit, decode);
    }
  }

  lemma {:induction false} FramedIsInPlace<V>(sequence: bool, body: Octets, limit: nat, decode: Decoder<V>)
    ensures InPlace(Framed(sequence, body, limit, decode), 0)
  {
    match Delimit(sequence, body)
    case Unopened =>
    case Records(records) => ReadIsInPlace(records, 0, limit, decode);
  }

  /** The records that are not blank, each taking one index. */
  function NonBlank(records: seq<Octets>): nat {
    if records == [] then 0 else (if Trim(records[0]) == [] then 0 else 1) + NonBlank(records[1..])
  }

  function ShiftedEntry<V>(entry: Expected<V>, by_: nat): Expected<V> {
    if entry.Schema? then Schema(entry.index + by_) else entry
  }

  /** The entries, their indices moved on by `by_`. */
  function Shifted<V>(read: seq<Expected<V>>, by_: nat): (shifted: seq<Expected<V>>)
    ensures |shifted| == |read|
    ensures forall k :: 0 <= k < |read| ==> shifted[k] == ShiftedEntry(read[k], by_)
  {
    if read == [] then [] else [ShiftedEntry(read[0], by_)] + Shifted(read[1..], by_)
  }

  lemma {:induction false} EntryIsShifted<V>(record: Octets, index: nat, by_: nat, limit: nat, decode: Decoder<V>)
    ensures Entry(record, index + by_, limit, decode) ==
      match Entry(record, index, limit, decode) case None => None case Some(entry) => Some(ShiftedEntry(entry, by_))
  {
  }

  lemma {:induction false} ReadFromIsShifted<V>(
      records: seq<Octets>, index: nat, by_: nat, limit: nat, decode: Decoder<V>)
    ensures Read(records, index + by_, limit, decode) == Shifted(Read(records, index, limit, decode), by_)
  {
    hide Entry;
    if records != [] {
      EntryIsShifted(records[0], index, by_, limit, decode);
      ReadFromIsShifted(records[1..], index, by_, limit, decode);
      ReadFromIsShifted(records[1..], index + 1, by_, limit, decode);
    }
  }

  lemma {:induction false} BlankHasNoEntry<V>(record: Octets, index: nat, limit: nat, decode: Decoder<V>)
    ensures var entry := Entry(record, index, limit, decode);
      (entry.None? ==> Trim(record) == []) && (entry.Some? && !EndsStream(entry.value) ==> Trim(record) != [])
  {
  }

  /** `first` ended the stream and is the whole, or took `taken` indices and is
      followed by `rest`. */
  ghost predicate InTurn<V>(whole: seq<Expected<V>>, first: seq<Expected<V>>, taken: nat, rest: seq<Expected<V>>) {
    if Ended(first) then whole == first else |first| == taken && whole == first + rest
  }

  lemma {:induction false} InTurnAfter<V>(
      entry: Expected<V>, whole: seq<Expected<V>>, first: seq<Expected<V>>, taken: nat, rest: seq<Expected<V>>)
    requires InTurn(whole, first, taken, rest) && !EndsStream(entry)
    ensures InTurn([entry] + whole, [entry] + first, taken + 1, rest)
  {
    Associative([entry], first, rest);
  }

  /** Records read after others that did not end the stream are read on from the
      index those reached, one for each that is not blank. */
  lemma {:induction false} RecordsReadInTurn<V>(
      first: seq<Octets>, rest: seq<Octets>, index: nat, limit: nat, decode: Decoder<V>)
    ensures InTurn(
      Read(first + rest, index, limit, decode),
      Read(first, index, limit, decode),
      NonBlank(first),
      Read(rest, index + NonBlank(first), limit, decode))
  {
    if first == [] {
      assert first + rest == rest;
      assert [] + Read(rest, index, limit, decode) == Read(rest, index, limit, decode);
    } else {
      hide Entry, Trim;
      TailOfConcat(first, rest);
      BlankHasNoEntry(first[0], index, limit, decode);
      match Entry(first[0], index, limit, decode)
      case None =>
        hide InTurn;
        RecordsReadInTurn(first[1..], rest, index, limit, decode);
      case Some(entry) =>
        if !EndsStream(entry) {
          hide InTurn;
          RecordsReadInTurn(first[1..], rest, index + 1, limit, decode);
          InTurnAfter(entry, Read(first[1..] + rest, index + 1, limit, decode),
            Read(first[1..], index + 1, limit, decode),
            NonBlank(first[1..]), Read(rest, index + NonBlank(first), limit, decode));
        }
    }
  }

  lemma {:induction false} ShiftReadsOn<V>(first: seq<Octets>, rest: seq<Octets>, limit: nat, decode: Decoder<V>)
    ensures ReadsOn(Read(first + rest, 0, limit, decode), Read(first, 0, limit, decode), Read(rest, 0, limit, decode))
  {
    hide Read, NonBlank, Ended, Shifted;
    RecordsReadInTurn(first, rest, 0, limit, decode);
    ReadFromIsShifted(rest, 0, NonBlank(first), limit, decode);
  }

  /** What follows what has been read so far: nothing once it ended, and the rest
      read on its own, its indices moved on, otherwise. */
  ghost predicate ReadsOn<V>(whole: seq<Expected<V>>, first: seq<Expected<V>>, rest: seq<Expected<V>>) {
    whole == if Ended(first) then first else first + Shifted(rest, |first|)
  }

  /** NDJSON is compositional at every newline. */
  lemma {:induction false} LinesReadOn<V>(first: Octets, rest: Octets, limit: nat, decode: Decoder<V>)
    ensures ReadsOn(
      Framed(false, first + [0x0a] + rest, limit, decode),
      Framed(false, first, limit, decode),
      Framed(false, rest, limit, decode))
  {
    hide Read, Split, ReadsOn;
    SplitAtSeparator<Octet>(first, rest, NEWLINE);
    ShiftReadsOn(Split<Octet>(first, NEWLINE), Split<Octet>(rest, NEWLINE), limit, decode);
  }

  /** A sequence is compositional at every separator. */
  lemma {:induction false} SequencesReadOn<V>(first: Octets, rest: Octets, limit: nat, decode: Decoder<V>)
    ensures ReadsOn(
      Framed(true, first + [0x1e] + rest, limit, decode),
      Framed(true, first, limit, decode),
      Framed(true, [0x1e] + rest, limit, decode))
  {
    var pieces, more := Split<Octet>(first, RECORD_SEPARATOR), Split<Octet>(rest, RECORD_SEPARATOR);
    SplitAtSeparator<Octet>(first, rest, RECORD_SEPARATOR);
    OpeningSplits(rest);
    hide Read, Split, Ended, Shifted;
    if pieces[0] == [] {
      hide ReadsOn;
      TailOfConcat(pieces, more);
      ShiftReadsOn(pieces[1..], more, limit, decode);
    } else {
      UnopenedEnds<V>();
    }
  }

  lemma {:induction false} OpeningSplits(rest: Octets)
    ensures Split<Octet>([RECORD_SEPARATOR] + rest, RECORD_SEPARATOR) == [[]] + Split<Octet>(rest, RECORD_SEPARATOR)
  {
    assert ([RECORD_SEPARATOR] + rest)[1..] == rest;
  }

  lemma {:induction false} UnopenedEnds<V>()
    ensures Ended<V>([Syntax])
  {
  }

  // --- Writing records --------------------------------------------------

  /** A record and its newline, after a separator in a sequence. */
  function Frame(sequence: bool, records: seq<Octets>): Octets {
    if records == [] then []
    else (if sequence then [RECORD_SEPARATOR] else []) + records[0] + [NEWLINE] + Frame(sequence, records[1..])
  }

  /** A record that holds no delimiter, that no limit refuses and that is JSON. */
  predicate Sound<V>(sequence: bool, record: Octets, limit: nat, decode: Decoder<V>) {
    && (if sequence then RECORD_SEPARATOR !in record && |record| < limit else NEWLINE !in record && |record| <= limit)
    && Trim(record) != [] && decode(Trim(record)).Decodes?
  }

  ghost predicate AllSound<V>(sequence: bool, records: seq<Octets>, limit: nat, decode: Decoder<V>) {
    forall k :: 0 <= k < |records| ==> Sound(sequence, records[k], limit, decode)
  }

  /** What the decoder makes of each record. */
  function Values<V>(records: seq<Octets>, decode: Decoder<V>): seq<Expected<V>>
    requires forall k :: 0 <= k < |records| ==> decode(Trim(records[k])).Decodes?
  {
    if records == [] then [] else [Value(decode(Trim(records[0])).value)] + Values(records[1..], decode)
  }

  lemma {:induction false} TrimIgnoresNewline(record: Octets)
    ensures Trim(record + [NEWLINE]) == Trim(record)
  {
    var ended := record + [NEWLINE];
    if record == [] {
      assert ended[1..] == [];
    } else if IsSpace(record[0]) {
      assert ended[1..] == record[1..] + [NEWLINE];
      TrimIgnoresNewline(record[1..]);
    } else {
      assert ended[..|record|] == record;
    }
  }

  lemma {:induction false} LineIsRead<V>(record: Octets, limit: nat, decode: Decoder<V>)
    requires Sound(false, record, limit, decode)
    ensures Framed(false, record, limit, decode) == [Value(decode(Trim(record)).value)]
  {
    SplitOfOne<Octet>(record, NEWLINE);
    assert Read([record][1..], 1, limit, decode) == [];
  }

  lemma {:induction false} SequenceRecordIsRead<V>(record: Octets, limit: nat, decode: Decoder<V>)
    requires Sound(true, record, limit, decode)
    ensures Framed(true, [RECORD_SEPARATOR] + record + [NEWLINE], limit, decode) == [Value(decode(Trim(record)).value)]
  {
    var ended := record + [NEWLINE];
    SplitOfOne<Octet>(ended, RECORD_SEPARATOR);
    var body := [RECORD_SEPARATOR] + record + [NEWLINE];
    assert body[1..] == ended;
    assert Split<Octet>(body, RECORD_SEPARATOR) == [[], ended];
    TrimIgnoresNewline(record);
    assert Read([ended][1..], 1, limit, decode) == [];
  }

  lemma {:induction false} NothingIsRead<V>(sequence: bool, limit: nat, decode: Decoder<V>)
    ensures Framed(sequence, [], limit, decode) == []
  {
    var none: seq<Octets> := [[]];
    assert none[1..] == [] && Read(none[1..], 0, limit, decode) == [];
  }

  lemma {:induction false} FrameOpens(records: seq<Octets>)
    requires records != []
    ensures Frame(true, records) == [RECORD_SEPARATOR] + Frame(true, records)[1..]
  {
  }

  /** The round trip: sound records, framed either way, are read back in order. */
  lemma {:induction false} FramesAreRead<V>(sequence: bool, records: seq<Octets>, limit: nat, decode: Decoder<V>)
    requires AllSound(sequence, records, limit, decode)
    ensures Framed(sequence, Frame(sequence, records), limit, decode) == Values(records, decode)
  {
    hide Framed, Trim;
    if records == [] {
      NothingIsRead(sequence, limit, decode);
    } else {
      var first, rest := records[0], Frame(sequence, records[1..]);
      assert Sound(sequence, first, limit, decode);
      FramesAreRead(sequence, records[1..], limit, decode);
      if sequence {
        SequenceRecordIsRead(first, limit, decode);
        SequenceReadsOn(first, records[1..], limit, decode);
      } else {
        LineIsRead(first, limit, decode);
        LinesReadOn(first, rest, limit, decode);
        assert Frame(false, records) == first + [NEWLINE] + rest;
      }
      ShiftedValues(records[1..], decode);
    }
  }

  lemma {:induction false} ShiftedValues<V>(records: seq<Octets>, decode: Decoder<V>)
    requires forall k :: 0 <= k < |records| ==> decode(Trim(records[k])).Decodes?
    ensures Shifted(Values(records, decode), 1) == Values(records, decode)
  {
    if records != [] {
      ShiftedValues(records[1..], decode);
    }
  }

  lemma {:induction false} SequenceReadsOn<V>(first: Octets, more: seq<Octets>, limit: nat, decode: Decoder<V>)
    ensures ReadsOn(
      Framed(true, Frame(true, [first] + more), limit, decode),
      Framed(true, [RECORD_SEPARATOR] + first + [NEWLINE], limit, decode),
      Framed(true, Frame(true, more), limit, decode))
  {
    hide Framed;
    var start, rest := [RECORD_SEPARATOR] + first + [NEWLINE], Frame(true, more);
    assert Frame(true, [first] + more) == start + rest by { assert ([first] + more)[1..] == more; }
    if more == [] {
      NothingIsRead(true, limit, decode);
      assert start + rest == start;
      var read := Framed(true, start, limit, decode);
      var none := Shifted(Framed(true, rest, limit, decode), |read|);
      assert none == [] && read + none == read;
    } else {
      FrameOpens(more);
      Associative(start, [RECORD_SEPARATOR], rest[1..]);
      SequencesReadOn(start, rest[1..], limit, decode);
    }
  }

  // --- One record -------------------------------------------------------

  predicate IsBlank(octet: Octet) {
    octet in {0x20, 0x09, 0x0a, 0x0c, 0x0d}
  }

  predicate AreBlank(octets: Octets) {
    forall k :: 0 <= k < |octets| ==> IsBlank(octets[k])
  }

  /** `trim_ascii` takes off ASCII whitespace at either end, and all of it. */
  lemma {:induction false} TrimIsTight(record: Octets)
    ensures var core := Trim(record);
      core != [] ==> !IsBlank(core[0]) && !IsBlank(core[|core| - 1])
  {
    if record != [] {
      if IsSpace(record[0]) {
        TrimIsTight(record[1..]);
      } else if IsSpace(record[|record| - 1]) {
        TrimIsTight(record[..|record| - 1]);
      }
    }
  }

  lemma {:induction false} TrimTakesBlanks(record: Octets) returns (before: Octets, after: Octets)
    ensures record == before + Trim(record) + after && AreBlank(before) && AreBlank(after)
  {
    before, after := [], [];
    if record != [] {
      hide IsBlank;
      IsSpaceIsBlank();
      if IsSpace(record[0]) {
        before, after := TrimTakesBlanks(record[1..]);
        Associative([record[0]], before + Trim(record), after);
        Associative([record[0]], before, Trim(record));
        before := [record[0]] + before;
      } else if IsSpace(record[|record| - 1]) {
        var last := |record| - 1;
        before, after := TrimTakesBlanks(record[..last]);
        Associative(before + Trim(record), after, [record[last]]);
        after := after + [record[last]];
      }
    }
  }

  lemma {:induction false} IsSpaceIsBlank()
    ensures forall octet: Octet :: IsSpace(octet) <==> IsBlank(octet)
  {
  }

  /** A lone record, of either framing, in each case the reader tells apart: too large,
      blank, JSON, JSON the type refuses, and no JSON. Its length is judged before it
      is trimmed. */
  lemma {:induction false} LoneRecordIsRead<V>(sequence: bool, record: Octets, limit: nat, decode: Decoder<V>)
    requires if sequence then 0x1e !in record else 0x0a !in record
    ensures var read := Framed(sequence, (if sequence then [0x1e] else []) + record, limit, decode);
      && (|record| > limit ==> read == [TooLarge(limit)])
      && (|record| <= limit && Trim(record) == [] ==> read == [])
      && (|record| <= limit && Trim(record) != [] ==>
            read == match decode(Trim(record)) {
              case Decodes(value) => [Value(value)]
              case BadData => [Schema(0)]
              case NotJson => [Syntax]
            })
  {
    hide Trim;
    var none: seq<Octets> := [];
    assert Read(none, 0, limit, decode) == [] && Read(none, 1, limit, decode) == [];
    assert [record][1..] == none;
    if sequence {
      var body := [RECORD_SEPARATOR] + record;
      assert body[1..] == record;
      SplitOfOne<Octet>(record, RECORD_SEPARATOR);
      assert Split<Octet>(body, RECORD_SEPARATOR) == [[], record];
      assert [[], record][1..] == [record];
    } else {
      SplitOfOne<Octet>(record, NEWLINE);
      assert [] + record == record;
    }
  }

  /** A sequence that does not open with its separator is no sequence. */
  lemma {:induction false} UnopenedIsRefused<V>(body: Octets, limit: nat, decode: Decoder<V>)
    requires body != [] && body[0] != 0x1e
    ensures Framed(true, body, limit, decode) == [Syntax]
  {
  }
}
