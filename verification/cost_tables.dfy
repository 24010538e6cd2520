/** The baseline tables of scripts/cost_features.py: writing one, reading one back
    and the lines of its header that are read. */
module CostTables {
  import opened Sequences
  import opened Splitting
  import opened Numerals
  import opened Dictionaries
  import opened Options

  /** `recorded.rows`: each label's numbers by column. */
  type Table = Map<Map<int>>

  datatype Recorded = Recorded(toolchain: Option<string>, host: Option<string>, rows: Table)

  /** `None`, a baseline, or the exception of a cell that is no number. */
  datatype Parsed = Absent | Parsed(recorded: Recorded) | Raises

  /** `int` of a string, which raises on what it does not read. It reads more than
      numerals; only that it reads those is relied on. */
  type IntReader = string -> Option<int>

  ghost predicate ReadsNumerals(read: IntReader) {
    forall digits :: Numeral(digits) ==>
      var n: int := Decimal(digits); read(digits) == Some(n) && read("-" + digits) == Some(-n)
  }

  /** `str` of an integer. */
  function Str(n: int): string {
    if n < 0 then "-" + Written(-n) else Written(n)
  }

  lemma {:induction false} StrIsRead(n: int, read: IntReader)
    requires ReadsNumerals(read)
    ensures read(Str(n)) == Some(n)
  {
    WrittenIsRead(if n < 0 then -n else n);
  }

  // --- Lines ------------------------------------------------------------

  /** Where `str.splitlines` ends a line. */
  predicate LineBreak(c: char) {
    || 0x0a <= c as int <= 0x0d || 0x1c <= c as int <= 0x1e
    || c as int == 0x85 || c as int == 0x2028 || c as int == 0x2029
  }

  predicate Unbroken(text: string) {
    forall k :: 0 <= k < |text| ==> !LineBreak(text[k])
  }

  function LineLength(text: string): (length: nat)
    ensures length <= |text| && Unbroken(text[..length]) && (length < |text| ==> LineBreak(text[length]))
  {
    if text == "" || LineBreak(text[0]) then 0 else 1 + LineLength(text[1..])
  }

  /** A carriage return and a newline are one break. */
  function BreakLength(text: string): nat {
    if |text| >= 2 && text[0] == '\r' && text[1] == '\n' then 2 else if text == "" then 0 else 1
  }

  /** `splitlines`. */
  function SplitLines(text: string): seq<string> {
    if text == "" then []
    else
      var length := LineLength(text);
      [text[..length]] + SplitLines(text[length..][BreakLength(text[length..])..])
  }

  /** The lines, each ended by a newline. */
  function Text(lines: seq<string>): string {
    if lines == [] then "" else lines[0] + "\n" + Text(lines[1..])
  }

  lemma {:induction false} LineLengthAt(line: string, rest: string)
    requires Unbroken(line)
    ensures LineLength(line + "\n" + rest) == |line|
  {
    if line != "" {
      assert (line + "\n" + rest)[1..] == line[1..] + "\n" + rest;
      LineLengthAt(line[1..], rest);
    }
  }

  lemma {:induction false} FirstLineIsSplit(line: string, rest: string)
    requires Unbroken(line)
    ensures SplitLines(line + "\n" + rest) == [line] + SplitLines(rest)
  {
    hide LineLength, Unbroken;
    var text := line + "\n" + rest;
    LineLengthAt(line, rest);
    assert text[..|line|] == line && text[|line|..] == "\n" + rest;
    assert ("\n" + rest)[1..] == rest;
  }

  lemma {:induction false} LinesAreSplit(lines: seq<string>)
    requires forall k :: 0 <= k < |lines| ==> Unbroken(lines[k])
    ensures SplitLines(Text(lines)) == lines
  {
    if lines != [] {
      hide SplitLines, Unbroken;
      LinesAreSplit(lines[1..]);
      FirstLineIsSplit(lines[0], Text(lines[1..]));
    }
  }

  // --- The header -------------------------------------------------------

  /** What `PROVENANCE` matches: `#`, one of the two keys, a colon and a value, with
      whitespace allowed between them and trimmed after. */
  function Provenance(line: string, space: char -> bool): Option<(string, string)> {
    if line == "" || line[0] != '#' then None
    else
      var stated := TrimStart(line[1..], space);
      if "toolchain:" <= stated then ProvenanceValue("toolchain", stated[10..], space)
      else if "host:" <= stated then ProvenanceValue("host", stated[5..], space)
      else None
  }

  function ProvenanceValue(key: string, after: string, space: char -> bool): Option<(string, string)> {
    var value := Trim(after, space);
    if value == "" then None else Some((key, value))
  }

  /** What the lines last state for `key`. */
  function StatedFor(lines: seq<string>, key: string, space: char -> bool): Option<string> {
    if lines == [] then None
    else match Provenance(lines[|lines| - 1], space)
      case Some((stated, value)) => if stated == key then Some(value) else StatedFor(lines[..|lines| - 1], key, space)
      case None => StatedFor(lines[..|lines| - 1], key, space)
  }

  lemma {:induction false} ValueIsRead(key: string, value: string, space: char -> bool)
    requires space(' ') && value != "" && !space(value[0]) && !space(value[|value| - 1])
    ensures ProvenanceValue(key, " " + value, space) == Some((key, value))
  {
    hide Trim;
    TrimPads(" ", value, "", space);
    assert " " + value + "" == " " + value;
  }

  lemma {:induction false} KeyIsRead(stated: string, space: char -> bool)
    requires space(' ') && stated != "" && !space(stated[0])
    ensures TrimStart(("# " + stated)[1..], space) == stated
  {
    assert ("# " + stated)[1..] == " " + stated;
    TrimStartPads(" ", stated, space);
  }

  /** The two lines that state where a baseline was measured, as they are written. */
  lemma {:induction false} ProvenanceIsRead(value: string, space: char -> bool)
    requires space(' ') && !space('t') && !space('h')
    requires value != "" && !space(value[0]) && !space(value[|value| - 1])
    ensures Provenance("# " + ("toolchain: " + value), space) == Some(("toolchain", value))
    ensures Provenance("# " + ("host: " + value), space) == Some(("host", value))
  {
    hide ProvenanceValue, TrimStart;
    var toolchain, host := "toolchain: " + value, "host: " + value;
    KeyIsRead(toolchain, space);
    KeyIsRead(host, space);
    assert toolchain[..10] == "toolchain:" && toolchain[10..] == " " + value;
    assert host[..5] == "host:" && host[5..] == " " + value && host[0] != 't';
    ValueIsRead("toolchain", value, space);
    ValueIsRead("host", value, space);
  }

  // --- Reading ----------------------------------------------------------

  predicate IsRow(line: string) {
    line != "" && line[0] != '#'
  }

  /** The cells of each line that is neither blank nor a comment. */
  function CellRows(lines: seq<string>): seq<seq<string>> {
    if lines == [] then []
    else CellRows(lines[..|lines| - 1]) + if IsRow(lines[|lines| - 1]) then [Split(lines[|lines| - 1], '\t')] else []
  }

  /** `dict(zip(names, cells))` over the cells' numbers; `None` where `int` raises. */
  function Numbers(names: seq<string>, cells: seq<string>, read: IntReader): Option<Map<int>>
    requires |names| == |cells|
  {
    if names == [] then Some([])
    else match (Numbers(names[..|names| - 1], cells[..|cells| - 1], read), read(cells[|cells| - 1]))
      case (Some(numbers), Some(n)) => Some(Updated(numbers, names[|names| - 1], n))
      case _ => None
  }

  predicate Rectangular(names: seq<string>, body: seq<seq<string>>) {
    forall k :: 0 <= k < |body| ==> |body[k]| == |names|
  }

  function Rows(names: seq<string>, body: seq<seq<string>>, read: IntReader): Option<Table>
    requires names != [] && Rectangular(names, body)
  {
    if body == [] then Some([])
    else
      var last := body[|body| - 1];
      match (Rows(names, body[..|body| - 1], read), Numbers(names[1..], last[1..], read))
      case (Some(rows), Some(numbers)) => Some(Updated(rows, last[0], numbers))
      case _ => None
  }

  function ReadRows(toolchain: Option<string>, host: Option<string>, rows: seq<seq<string>>, read: IntReader): Parsed
    requires forall k :: 0 <= k < |rows| ==> rows[k] != []
  {
    if |rows| < 2 || !Rectangular(rows[0], rows[1..]) then Absent
    else match Rows(rows[0], rows[1..], read)
      case None => Raises
      case Some(table) => Parsed(Recorded(toolchain, host, table))
  }

  lemma {:induction false} CellRowsHaveCells(lines: seq<string>)
    ensures forall k :: 0 <= k < |CellRows(lines)| ==> CellRows(lines)[k] != []
  {
    if lines != [] {
      CellRowsHaveCells(lines[..|lines| - 1]);
    }
  }

  function ParseLines(lines: seq<string>, space: char -> bool, read: IntReader): Parsed {
    CellRowsHaveCells(lines);
    ReadRows(StatedFor(lines, "toolchain", space), StatedFor(lines, "host", space), CellRows(lines), read)
  }

  /** `parse_recorded`. */
  method ParseRecorded(text: string, space: char -> bool, read: IntReader) returns (parsed: Parsed)
    ensures parsed == ParseLines(SplitLines(text), space, read)
  {
    var lines := SplitLines(text);
    var toolchain, host: Option<string> := None, None;
    var rows: seq<seq<string>> := [];
    for k := 0 to |lines|
      invariant toolchain == StatedFor(lines[..k], "toolchain", space) && host == StatedFor(lines[..k], "host", space)
      invariant rows == CellRows(lines[..k])
    {
      var line := lines[k];
      assert lines[..k + 1][..k] == lines[..k];
      if line == "" {
        continue;
      }
      if line[0] == '#' {
        var header := Provenance(line, space);
        if header.Some? {
          if header.value.0 == "toolchain" {
            toolchain := Some(header.value.1);
          } else {
            host := Some(header.value.1);
          }
        }
        continue;
      }
      rows := rows + [Split(line, '\t')];
    }
    assert lines[..|lines|] == lines;
    CellRowsHaveCells(lines);
    if |rows| < 2 {
      return Absent;
    }
    var names, body := rows[0], rows[1..];
    if exists k :: 0 <= k < |body| && |body[k]| != |names| {
      return Absent;
    }
    match Rows(names, body, read)
    case None => parsed := Raises;
    case Some(table) => parsed := Parsed(Recorded(toolchain, host, table));
  }

  // --- Writing ----------------------------------------------------------

  function RowLine(names: seq<string>, name: string, values: Map<int>): string
    requires forall k :: 0 <= k < |names| ==> names[k] in Keys(values)
  {
    Joined([name] + Cells(names, values), '\t')
  }

  function Cells(names: seq<string>, values: Map<int>): (cells: seq<string>)
    requires forall k :: 0 <= k < |names| ==> names[k] in Keys(values)
    ensures |cells| == |names|
  {
    seq(|names|, k requires 0 <= k < |names| => Str(Lookup(values, names[k]).value))
  }

  predicate HasColumns(names: seq<string>, rows: Table) {
    forall j, k :: 0 <= j < |rows| && 0 <= k < |names| ==> names[k] in Keys(rows[j].value)
  }

  function TableLines(names: seq<string>, rows: Table): (lines: seq<string>)
    requires HasColumns(names, rows)
    ensures |lines| == |rows| + 1
  {
    [Joined(["feature"] + names, '\t')] +
    seq(|rows|, k requires 0 <= k < |rows| => RowLine(names, rows[k].key, rows[k].value))
  }

  /** `write_tsv`, of a header of whole lines. */
  function WriteTsv(header: seq<string>, names: seq<string>, rows: Table): string
    requires HasColumns(names, rows)
  {
    Text(header) + Text(TableLines(names, rows))
  }

  predicate Plain(text: string) {
    forall k :: 0 <= k < |text| ==> !LineBreak(text[k]) && text[k] != '\t'
  }

  /** Prose only: comments and blank lines. */
  predicate HeaderLines(header: seq<string>) {
    forall k :: 0 <= k < |header| ==> Unbroken(header[k]) && !IsRow(header[k])
  }

  predicate Matches(names: seq<string>, values: Map<int>) {
    |values| == |names| && forall k :: 0 <= k < |names| ==> values[k].key == names[k]
  }

  predicate Distinct(names: seq<string>) {
    forall j, k :: 0 <= j < k < |names| ==> names[j] != names[k]
  }

  /** A table whose lines read as its rows: no cell holds a tab or a break, no row
      looks like prose, and every row has the columns, in their order. */
  predicate Writable(names: seq<string>, rows: Table) {
    && (forall k :: 0 <= k < |names| ==> Plain(names[k]))
    && Distinct(names) && DistinctKeys(rows)
    && forall k :: 0 <= k < |rows| ==> WritableRow(names, rows[k])
  }

  predicate WritableRow(names: seq<string>, row: Entry<Map<int>>) {
    && Plain(row.key) && !(row.key != "" && row.key[0] == '#') && (row.key != "" || names != [])
    && Matches(names, row.value)
  }

  lemma {:induction false} WritableHasColumns(names: seq<string>, rows: Table)
    requires Writable(names, rows)
    ensures HasColumns(names, rows)
    ensures forall j :: 0 <= j < |rows| ==> DistinctKeys(rows[j].value)
  {
    forall j, k | 0 <= j < |rows| && 0 <= k < |names| ensures names[k] in Keys(rows[j].value) {
      assert WritableRow(names, rows[j]) && rows[j].value[k].key == names[k];
    }
    forall j | 0 <= j < |rows| ensures DistinctKeys(rows[j].value) {
      assert WritableRow(names, rows[j]);
    }
  }

  lemma {:induction false} WrittenIsPlain(n: nat)
    ensures Plain(Written(n))
  {
    WrittenIsRead(n);
  }

  lemma {:induction false} JoinedIsUnbroken(cells: seq<string>)
    requires cells != [] && forall k :: 0 <= k < |cells| ==> Plain(cells[k])
    ensures Unbroken(Joined(cells, '\t'))
    ensures cells[0] != "" ==> Joined(cells, '\t') != "" && Joined(cells, '\t')[0] == cells[0][0]
    ensures cells[0] == "" && |cells| > 1 ==> Joined(cells, '\t') != "" && Joined(cells, '\t')[0] == '\t'
  {
    if |cells| > 1 {
      JoinedIsUnbroken(cells[1..]);
    }
  }

  lemma {:induction false} CellsRead(first: string, rest: seq<string>)
    requires Plain(first) && (forall k :: 0 <= k < |rest| ==> Plain(rest[k]))
    requires if first == "" then rest != [] else first[0] != '#'
    ensures var line := Joined([first] + rest, '\t');
      Unbroken(line) && IsRow(line) && Split(line, '\t') == [first] + rest
  {
    hide Split, Joined;
    var cells := [first] + rest;
    assert forall k :: 1 <= k < |cells| ==> cells[k] == rest[k - 1];
    JoinedIsUnbroken(cells);
    SplitInvertsJoining(cells, '\t');
  }

  /** A row's line reads back as its cells. */
  lemma {:induction false} RowLineReads(names: seq<string>, row: Entry<Map<int>>)
    requires WritableRow(names, row) && forall k :: 0 <= k < |names| ==> names[k] in Keys(row.value)
    ensures var line := RowLine(names, row.key, row.value);
      Unbroken(line) && IsRow(line) && Split(line, '\t') == [row.key] + Cells(names, row.value)
  {
    hide Split, Written, Joined;
    var cells := Cells(names, row.value);
    forall k | 0 <= k < |cells| ensures Plain(cells[k]) {
      var n := Lookup(row.value, names[k]).value;
      WrittenIsPlain(if n < 0 then -n else n);
    }
    CellsRead(row.key, cells);
  }

  lemma {:induction false} FeatureIsPlain(first: string)
    requires first == "feature"
    ensures Plain(first) && first != "" && first[0] != '#'
  {
  }

  lemma {:induction false} NamesLineReads(names: seq<string>)
    requires forall k :: 0 <= k < |names| ==> Plain(names[k])
    ensures var line := Joined(["feature"] + names, '\t');
      Unbroken(line) && IsRow(line) && Split(line, '\t') == ["feature"] + names
  {
    var first := "feature";
    FeatureIsPlain(first);
    hide Split, Joined, Unbroken, IsRow, Plain;
    CellsRead(first, names);
  }

  lemma {:induction false} LastIsNew(names: seq<string>, values: Map<int>)
    requires Matches(names, values) && Distinct(names) && names != []
    ensures var n := |names| - 1;
      && Matches(names[..n], values[..n]) && Distinct(names[..n])
      && names[n] !in Keys(values[..n])
      && values == values[..n] + [Entry(names[n], values[n].value)]
  {
  }

  /** A row's cells are its numbers again. */
  lemma {:induction false} NumbersAreRead(names: seq<string>, cells: seq<string>, values: Map<int>, read: IntReader)
    requires ReadsNumerals(read) && Matches(names, values) && Distinct(names)
    requires |cells| == |names| && forall k :: 0 <= k < |names| ==> cells[k] == Str(values[k].value)
    ensures Numbers(names, cells, read) == Some(values)
  {
    hide ReadsNumerals, Matches, Distinct, Keys, Updated, Str;
    if names == [] {
      assert values == [] by { MatchesNothing(values); }
    } else {
      var n := |names| - 1;
      LastIsNew(names, values);
      NumbersAreRead(names[..n], cells[..n], values[..n], read);
      StrIsRead(values[n].value, read);
      UpdatedIsAppended(values[..n], names[n], values[n].value);
    }
  }

  lemma {:induction false} MatchesNothing(values: Map<int>)
    requires Matches([], values)
    ensures values == []
  {
  }

  lemma {:induction false} RowNumbersAreRead(names: seq<string>, row: Entry<Map<int>>, read: IntReader)
    requires ReadsNumerals(read) && WritableRow(names, row) && DistinctKeys(row.value) && Distinct(names)
    requires forall k :: 0 <= k < |names| ==> names[k] in Keys(row.value)
    ensures Numbers(names, Cells(names, row.value), read) == Some(row.value)
  {
    hide ReadsNumerals, Str;
    forall k | 0 <= k < |names| ensures Cells(names, row.value)[k] == Str(row.value[k].value) {
      EntryIsFound(row.value, k);
    }
    NumbersAreRead(names, Cells(names, row.value), row.value, read);
  }

  function CellsOfRows(names: seq<string>, rows: Table): (cells: seq<seq<string>>)
    requires HasColumns(names, rows)
    ensures |cells| == |rows|
  {
    seq(|rows|, k requires 0 <= k < |rows| => [rows[k].key] + Cells(names, rows[k].value))
  }

  /** The last row, and the rows before it. */
  lemma {:induction false} LastRow(names: seq<string>, rows: Table)
    requires Writable(names, rows) && HasColumns(names, rows) && rows != []
    ensures var n := |rows| - 1;
      && Writable(names, rows[..n]) && HasColumns(names, rows[..n])
      && WritableRow(names, rows[n]) && DistinctKeys(rows[n].value) && Distinct(names)
      && (forall k :: 0 <= k < |names| ==> names[k] in Keys(rows[n].value))
      && rows[n].key !in Keys(rows[..n])
      && rows == rows[..n] + [Entry(rows[n].key, rows[n].value)]
  {
    hide WritableRow;
    WritableHasColumns(names, rows);
  }

  lemma {:induction false} RowsAreRead(names: seq<string>, rows: Table, read: IntReader)
    requires ReadsNumerals(read) && Writable(names, rows) && HasColumns(names, rows)
    ensures Rows(["feature"] + names, CellsOfRows(names, rows), read) == Some(rows)
  {
    hide ReadsNumerals, Writable, WritableRow, HasColumns, DistinctKeys, Distinct, Keys, Updated, Numbers;
    if rows != [] {
      var n := |rows| - 1;
      LastRow(names, rows);
      RowsAreRead(names, rows[..n], read);
      RowNumbersAreRead(names, rows[n], read);
      var cells := CellsOfRows(names, rows);
      assert cells[..n] == CellsOfRows(names, rows[..n]);
      assert cells[n][0] == rows[n].key && cells[n][1..] == Cells(names, rows[n].value);
      assert (["feature"] + names)[1..] == names;
      UpdatedIsAppended(rows[..n], rows[n].key, rows[n].value);
    }
  }

  lemma {:induction false} CellRowsConcat(first: seq<string>, rest: seq<string>)
    ensures CellRows(first + rest) == CellRows(first) + CellRows(rest)
  {
    if rest == [] {
      assert first + rest == first;
    } else {
      InitOfConcat(first, rest);
      CellRowsConcat(first, rest[..|rest| - 1]);
    }
  }

  lemma {:induction false} HeaderHasNoRows(header: seq<string>)
    requires HeaderLines(header)
    ensures CellRows(header) == []
  {
    if header != [] {
      HeaderHasNoRows(header[..|header| - 1]);
    }
  }

  lemma {:induction false} AllRowsAreRead(lines: seq<string>, cells: seq<seq<string>>)
    requires |lines| == |cells| && forall k :: 0 <= k < |lines| ==> IsRow(lines[k]) && Split(lines[k], '\t') == cells[k]
    ensures CellRows(lines) == cells
  {
    if lines != [] {
      AllRowsAreRead(lines[..|lines| - 1], cells[..|cells| - 1]);
    }
  }

  /** A row states nothing, so the header decides what is stated. */
  lemma {:induction false} OnlyHeaderStates(header: seq<string>, lines: seq<string>, key: string, space: char -> bool)
    requires forall k :: 0 <= k < |lines| ==> IsRow(lines[k])
    ensures StatedFor(header + lines, key, space) == StatedFor(header, key, space)
  {
    if lines == [] {
      assert header + lines == header;
    } else {
      InitOfConcat(header, lines);
      OnlyHeaderStates(header, lines[..|lines| - 1], key, space);
    }
  }

  lemma {:induction false} TableLinesRead(names: seq<string>, rows: Table)
    requires Writable(names, rows) && HasColumns(names, rows)
    ensures var lines := TableLines(names, rows);
      && (forall k :: 0 <= k < |lines| ==> Unbroken(lines[k]) && IsRow(lines[k]))
      && CellRows(lines) == [["feature"] + names] + CellsOfRows(names, rows)
  {
    hide RowLine, Split, Joined, CellRows;
    var lines := TableLines(names, rows);
    var cells := [["feature"] + names] + CellsOfRows(names, rows);
    NamesLineReads(names);
    forall k | 0 <= k < |lines| ensures Unbroken(lines[k]) && IsRow(lines[k]) && Split(lines[k], '\t') == cells[k] {
      if k > 0 {
        assert WritableRow(names, rows[k - 1]);
        RowLineReads(names, rows[k - 1]);
      }
    }
    AllRowsAreRead(lines, cells);
  }

  lemma {:induction false} TextConcat(first: seq<string>, rest: seq<string>)
    ensures Text(first) + Text(rest) == Text(first + rest)
  {
    if first == [] {
      assert first + rest == rest;
    } else {
      TextConcat(first[1..], rest);
      TailOfConcat(first, rest);
      Associative(first[0] + "\n", Text(first[1..]), Text(rest));
    }
  }

  lemma {:induction false} WrittenLines(header: seq<string>, names: seq<string>, rows: Table)
    requires HeaderLines(header) && Writable(names, rows) && HasColumns(names, rows)
    ensures SplitLines(WriteTsv(header, names, rows)) == header + TableLines(names, rows)
  {
    hide TableLines, SplitLines, Text;
    TableLinesRead(names, rows);
    var lines := TableLines(names, rows);
    TextConcat(header, lines);
    assert forall k :: 0 <= k < |header + lines| ==> Unbroken((header + lines)[k]);
    LinesAreSplit(header + lines);
  }

  /** The round trip: a table with a row in it is read back as it was written, under
      the toolchain and host its header states; one without is no baseline. */
  lemma {:induction false} ParseInvertsWriting(
      header: seq<string>, names: seq<string>, rows: Table, space: char -> bool, read: IntReader)
    requires ReadsNumerals(read) && HeaderLines(header) && Writable(names, rows) && HasColumns(names, rows)
    ensures ParseLines(SplitLines(WriteTsv(header, names, rows)), space, read) ==
      if rows == [] then Absent
      else Parsed(Recorded(StatedFor(header, "toolchain", space), StatedFor(header, "host", space), rows))
  {
    hide TableLines, SplitLines, WriteTsv, CellRows, StatedFor, Rows, Cells;
    var lines := TableLines(names, rows);
    WrittenLines(header, names, rows);
    TableLinesRead(names, rows);
    OnlyHeaderStates(header, lines, "toolchain", space);
    OnlyHeaderStates(header, lines, "host", space);
    CellRowsConcat(header, lines);
    HeaderHasNoRows(header);
    var cells := CellRows(header + lines);
    assert cells == [["feature"] + names] + CellsOfRows(names, rows);
    assert cells[1..] == CellsOfRows(names, rows);
    RowsAreRead(names, rows, read);
  }

  // --- As it is written -------------------------------------------------

  /** A table of one row and one column, to the character. */
  lemma {:induction false} OneRowIsWritten(note: string, row: string, column: string, value: nat)
    requires value < 10
    ensures var rows: Table := [Entry(row, [Entry(column, value)])];
      && HasColumns([column], rows)
      && WriteTsv([note], [column], rows)
           == note + "\n" + ("feature" + "\t" + column + "\n" + (row + "\t" + Written(value) + "\n"))
  {
    var values: Map<int> := [Entry(column, value)];
    var rows: Table := [Entry(row, values)];
    assert values[0].key == column;
    assert Lookup(values, column) == Some(value);
    assert Cells([column], values) == [Written(value)];
    TwoJoined("feature", column);
    TwoJoined(row, Written(value));
    var lines := TableLines([column], rows);
    assert RowLine([column], row, values) == Joined([row, Written(value)], '\t');
    assert lines == [lines[0], lines[1]] && lines[0] == Joined(["feature", column], '\t');
    hide Written, Joined, RowLine, Lookup, Cells, TableLines;
    OneText(note);
    TwoTexts(lines[0], lines[1]);
  }

  lemma {:induction false} TwoJoined(first: string, second: string)
    ensures Joined([first, second], '\t') == first + "\t" + second
    ensures [first] + [second] == [first, second]
  {
    assert [first, second][1..] == [second];
  }

  lemma {:induction false} OneText(line: string)
    ensures Text([line]) == line + "\n"
  {
    assert [line][1..] == [] && line + "\n" + "" == line + "\n";
  }

  lemma {:induction false} TwoTexts(first: string, second: string)
    ensures Text([first, second]) == first + "\n" + (second + "\n")
  {
    assert [first, second][1..] == [second];
    OneText(second);
  }

  /** A body with a row longer or shorter than the names is no baseline. */
  lemma {:induction false} RaggedIsAbsent(lines: seq<string>, k: nat, space: char -> bool, read: IntReader)
    requires 0 < k < |CellRows(lines)| && |CellRows(lines)[k]| != |CellRows(lines)[0]|
    ensures ParseLines(lines, space, read) == Absent
  {
    assert CellRows(lines)[1..][k - 1] == CellRows(lines)[k];
  }

  /** Of two lines that state one thing, the later one holds. */
  lemma {:induction false} LaterStatementHolds(lines: seq<string>, line: string, key: string, space: char -> bool)
    ensures StatedFor(lines + [line], key, space) ==
      match Provenance(line, space) {
        case Some((stated, value)) => if stated == key then Some(value) else StatedFor(lines, key, space)
        case None => StatedFor(lines, key, space)
      }
  {
    assert (lines + [line])[..|lines|] == lines;
  }
}
