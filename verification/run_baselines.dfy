/** The recorded baseline of scripts/profile_report.py: writing one, reading its
    rows and host back, and reading back the groups that are never compared. */
module RunBaselines {
  import opened Sequences
  import opened Splitting
  import opened Numerals
  import opened Dictionaries
  import opened CostTables
  import opened RunAgreement
  import opened Options

  /** `read_baseline`'s two results, or the exception of a line it cannot unpack. */
  datatype Baseline = Held(rows: Map<Counts>, host: Option<string>) | Unreadable

  function Header(): string {
    "benchmark"
  }

  // --- Reading ----------------------------------------------------------

  function RowOf(line: string, read: IntReader): Option<Row> {
    var cells := Split(line, '\t');
    if |cells| != 4 then None
    else match (read(cells[1]), read(cells[2]), read(cells[3]))
      case (Some(program), Some(blocks), Some(octets)) => Some(Row(cells[0], Counts(program, blocks, octets)))
      case _ => None
  }

  predicate IsSkipped(line: string) {
    line == "" || "#" <= line || Header() <= line
  }

  function ReadLine(baseline: Baseline, line: string, read: IntReader): Baseline {
    if baseline == Unreadable then Unreadable
    else if "# host: " <= line then baseline.(host := Some(line[8..]))
    else if IsSkipped(line) then baseline
    else match RowOf(line, read)
      case None => Unreadable
      case Some(row) => baseline.(rows := Updated(baseline.rows, row.benchmark, row.counts))
  }

  function ReadLines(lines: seq<string>, read: IntReader): Baseline {
    if lines == [] then Held([], None) else ReadLine(ReadLines(lines[..|lines| - 1], read), lines[|lines| - 1], read)
  }

  /** `read_baseline`. */
  method ReadBaseline(text: string, read: IntReader) returns (baseline: Baseline)
    ensures baseline == ReadLines(SplitLines(text), read)
  {
    var lines := SplitLines(text);
    var rows: Map<Counts>, host: Option<string> := [], None;
    for k := 0 to |lines|
      invariant ReadLines(lines[..k], read) == Held(rows, host)
    {
      var line := lines[k];
      assert lines[..k + 1][..k] == lines[..k];
      if "# host: " <= line {
        host := Some(line[8..]);
        continue;
      }
      if IsSkipped(line) {
        continue;
      }
      var row := RowOf(line, read);
      if row == None {
        StaysUnreadable(lines, k + 1, read);
        return Unreadable;
      }
      rows := Updated(rows, row.value.benchmark, row.value.counts);
    }
    assert lines[..|lines|] == lines;
    baseline := Held(rows, host);
  }

  lemma {:induction false} StaysUnreadable(lines: seq<string>, k: nat, read: IntReader)
    requires k <= |lines| && ReadLines(lines[..k], read) == Unreadable
    ensures ReadLines(lines, read) == Unreadable
    decreases |lines| - k
  {
    if k == |lines| {
      assert lines[..k] == lines;
    } else {
      assert lines[..k + 1][..k] == lines[..k];
      StaysUnreadable(lines, k + 1, read);
    }
  }

  /** `str.split` at whitespace. */
  function Words(text: string, space: char -> bool): seq<string> {
    if text == "" then []
    else if space(text[0]) then Words(text[1..], space)
    else
      var length := WordLength(text, space);
      [text[..length]] + Words(text[length..], space)
  }

  function WordLength(text: string, space: char -> bool): (length: nat)
    ensures length <= |text| && (text != "" && !space(text[0]) ==> length > 0)
  {
    if text == "" || space(text[0]) then 0 else 1 + WordLength(text[1..], space)
  }

  /** `read_trend`: the words after `# trend:`, on the first line to start with it. */
  function TrendOf(lines: seq<string>, space: char -> bool): Trend {
    if lines == [] then {}
    else if "# trend:" <= lines[0] then set word | word in Words(lines[0][8..], space)
    else TrendOf(lines[1..], space)
  }

  // --- Writing ----------------------------------------------------------

  function RowLine(row: Row): string {
    Joined([row.benchmark, Str(row.counts.program), Str(row.counts.blocks), Str(row.counts.octets)], '\t')
  }

  function RowLines(rows: seq<Row>): (lines: seq<string>)
    ensures |lines| == |rows| && forall k :: 0 <= k < |rows| ==> lines[k] == RowLine(rows[k])
  {
    seq(|rows|, k requires 0 <= k < |rows| => RowLine(rows[k]))
  }

  /** `trend` is the sorted groups. */
  function HeaderOf(prose: string, toolchain: string, host: string, trend: seq<string>, columns: string): seq<string> {
    [prose, "# toolchain: " + toolchain, "# host: " + host]
    + (if trend == [] then [] else ["# trend: " + Joined(trend, ' ')])
    + [columns]
  }

  /** `write_baseline`, of its first line of prose and its line of columns. */
  function WriteBaseline(
      prose: string, columns: string, rows: seq<Row>, toolchain: string, host: string, trend: seq<string>): string {
    Text(HeaderOf(prose, toolchain, host, trend, columns) + RowLines(rows))
  }

  // --- Round trips ------------------------------------------------------

  /** The rows as a dictionary. */
  function Tabled(rows: seq<Row>): Map<Counts> {
    if rows == [] then []
    else Updated(Tabled(rows[..|rows| - 1]), rows[|rows| - 1].benchmark, rows[|rows| - 1].counts)
  }

  /** A row's name that starts its line as a comment or as the line of columns. */
  predicate IsTaken(name: string) {
    "#" <= name || Header() <= name
  }

  /** The rows not taken for other lines. */
  function Kept(rows: seq<Row>): seq<Row> {
    if rows == [] then []
    else Kept(rows[..|rows| - 1]) + if IsTaken(rows[|rows| - 1].benchmark) then [] else [rows[|rows| - 1]]
  }

  /** The host read behind the header's: a row may be taken for a line of it. */
  function HostOf(rows: seq<Row>, host: string): string {
    if rows == [] then host
    else
      var row := rows[|rows| - 1];
      if "# host: " <= row.benchmark then RowLine(row)[8..] else HostOf(rows[..|rows| - 1], host)
  }

  predicate PlainRows(rows: seq<Row>) {
    forall k :: 0 <= k < |rows| ==> Plain(rows[k].benchmark)
  }

  /** What the file's other lines are. */
  predicate PlainHeader(
      prose: string, columns: string, toolchain: string, host: string, trend: seq<string>, space: char -> bool) {
    && Unbroken(prose) && "#" <= prose && !("# host: " <= prose) && !("# trend:" <= prose)
    && Unbroken(columns) && Header() <= columns
    && Unbroken(toolchain) && Unbroken(host)
    && forall k :: 0 <= k < |trend| ==> IsWord(trend[k], space)
  }

  predicate IsWord(text: string, space: char -> bool) {
    text != "" && Unbroken(text) && forall k :: 0 <= k < |text| ==> !space(text[k])
  }

  lemma {:induction false} JoinedStarts(first: string, rest: seq<string>, part: string)
    requires '\t' !in part
    ensures part <= Joined([first] + rest, '\t') <==> part <= first
  {
    var line := Joined([first] + rest, '\t');
    assert first <= line;
    assert rest != [] ==> line[|first|] == '\t';
    assert part <= first ==> line[..|part|] == first[..|part|];
  }

  function CountCells(counts: Counts): seq<string> {
    [Str(counts.program), Str(counts.blocks), Str(counts.octets)]
  }

  lemma {:induction false} RowLineIs(row: Row)
    ensures RowLine(row) == Joined([row.benchmark] + CountCells(row.counts), '\t')
    ensures RowLine(row) == row.benchmark + ['\t'] + Joined(CountCells(row.counts), '\t')
    ensures row.benchmark <= RowLine(row)
  {
    var rest := CountCells(row.counts);
    assert [row.benchmark] + rest == [row.benchmark, rest[0], rest[1], rest[2]];
    hide Str;
    assert RowLine(row) == row.benchmark + ['\t'] + Joined(rest, '\t');
  }

  /** What a row's line starts with, its name does. */
  lemma {:induction false} RowLineStarts(row: Row)
    ensures "#" <= RowLine(row) <==> "#" <= row.benchmark
    ensures "# host: " <= RowLine(row) <==> "# host: " <= row.benchmark
    ensures "# trend:" <= RowLine(row) <==> "# trend:" <= row.benchmark
    ensures Header() <= RowLine(row) <==> Header() <= row.benchmark
  {
    var rest := CountCells(row.counts);
    RowLineIs(row);
    JoinedStarts(row.benchmark, rest, "#");
    JoinedStarts(row.benchmark, rest, "# host: ");
    JoinedStarts(row.benchmark, rest, "# trend:");
    JoinedStarts(row.benchmark, rest, Header());
  }

  lemma {:induction false} CountsArePlain(counts: Counts, read: IntReader)
    requires ReadsNumerals(read)
    ensures var cells := CountCells(counts);
      && (forall k :: 0 <= k < |cells| ==> Plain(cells[k]))
      && read(cells[0]) == Some(counts.program) && read(cells[1]) == Some(counts.blocks)
      && read(cells[2]) == Some(counts.octets)
  {
    StrReads(counts.program, read);
    StrReads(counts.blocks, read);
    StrReads(counts.octets, read);
  }

  /** A row's line reads back as the row. */
  lemma {:induction false} RowIsRead(row: Row, read: IntReader)
    requires ReadsNumerals(read) && Plain(row.benchmark) && !IsTaken(row.benchmark)
    ensures RowLine(row) != "" && RowOf(RowLine(row), read) == Some(row)
  {
    hide Split, Joined, Str, Plain, ReadsNumerals, RowLine, Header;
    CountsArePlain(row.counts, read);
    NoHash(row.benchmark);
    CellsRead(row.benchmark, CountCells(row.counts));
    RowLineIs(row);
  }

  lemma {:induction false} RowIsUnbroken(row: Row)
    requires Unbroken(row.benchmark)
    ensures Unbroken(RowLine(row))
  {
    var rest := CountCells(row.counts);
    StrIsPlain(row.counts.program);
    StrIsPlain(row.counts.blocks);
    StrIsPlain(row.counts.octets);
    hide Joined, Str;
    JoinedIsUnbroken(rest);
    RowLineIs(row);
  }

  lemma {:induction false} StrIsPlain(n: int)
    ensures Plain(Str(n))
  {
    WrittenIsPlain(if n < 0 then -n else n);
  }

  lemma {:induction false} NoHash(name: string)
    requires !("#" <= name)
    ensures name != "" ==> name[0] != '#'
  {
  }

  lemma {:induction false} StrReads(n: int, read: IntReader)
    requires ReadsNumerals(read)
    ensures Plain(Str(n)) && read(Str(n)) == Some(n)
  {
    StrIsRead(n, read);
    WrittenIsPlain(if n < 0 then -n else n);
  }

  lemma {:induction false} LastRowReads(baseline: Baseline, row: Row, read: IntReader)
    requires ReadsNumerals(read) && Plain(row.benchmark) && baseline.Held?
    ensures ReadLine(baseline, RowLine(row), read) ==
      if "# host: " <= row.benchmark then baseline.(host := Some(RowLine(row)[8..]))
      else if IsTaken(row.benchmark) then baseline
      else baseline.(rows := Updated(baseline.rows, row.benchmark, row.counts))
  {
    RowLineStarts(row);
    hide RowOf, RowLine, Header, ReadsNumerals, Plain, Updated;
    HostIsNoRow(row.benchmark);
    if !IsTaken(row.benchmark) {
      RowIsRead(row, read);
    }
  }

  lemma {:induction false} RowsRead(header: seq<string>, rows: seq<Row>, host: string, read: IntReader)
    requires ReadsNumerals(read) && PlainRows(rows) && ReadLines(header, read) == Held([], Some(host))
    ensures ReadLines(header + RowLines(rows), read) == Held(Tabled(Kept(rows)), Some(HostOf(rows, host)))
  {
    hide RowOf, RowLine, IsTaken, ReadLine, ReadsNumerals, Plain, Updated;
    if rows == [] {
      assert header + RowLines(rows) == header;
    } else {
      var n := |rows| - 1;
      RowsRead(header, rows[..n], host, read);
      var lines := header + RowLines(rows);
      assert lines[..|lines| - 1] == header + RowLines(rows[..n]) && lines[|lines| - 1] == RowLine(rows[n]);
      assert ReadLines(lines, read) == ReadLine(ReadLines(lines[..|lines| - 1], read), lines[|lines| - 1], read);
      LastRowReads(Held(Tabled(Kept(rows[..n])), Some(HostOf(rows[..n], host))), rows[n], read);
      if "# host: " <= rows[n].benchmark {
        HostIsTaken(rows[n].benchmark);
      }
      LastRowTabled(rows);
    }
  }

  lemma {:induction false} HostIsTaken(name: string)
    requires "# host: " <= name
    ensures IsTaken(name)
  {
    HostIsNoRow(name);
  }

  lemma {:induction false} LastRowTabled(rows: seq<Row>)
    requires rows != []
    ensures var n := |rows| - 1;
      Tabled(Kept(rows)) ==
        if IsTaken(rows[n].benchmark) then Tabled(Kept(rows[..n]))
        else Updated(Tabled(Kept(rows[..n])), rows[n].benchmark, rows[n].counts)
  {
    hide IsTaken, Updated;
    var n := |rows| - 1;
    if IsTaken(rows[n].benchmark) {
      assert Kept(rows) == Kept(rows[..n]);
    } else {
      var kept := Kept(rows[..n]) + [rows[n]];
      assert Kept(rows) == kept && kept[..|kept| - 1] == Kept(rows[..n]);
    }
  }

  lemma {:induction false} HostIsNoRow(line: string)
    ensures "# host: " <= line ==> "#" <= line
    ensures "# trend:" <= line ==> "#" <= line
  {
    if "# host: " <= line {
      assert line[..1] == "# host: "[..1] == "#";
    }
    if "# trend:" <= line {
      assert line[..1] == "# trend:"[..1] == "#";
    }
  }

  // --- The header, read back --------------------------------------------

  lemma {:induction false} SkippedIsSkipped(baseline: Baseline, line: string, read: IntReader)
    requires baseline.Held? && IsSkipped(line) && !("# host: " <= line)
    ensures ReadLine(baseline, line, read) == baseline
  {
  }

  lemma {:induction false} HostIsRead(baseline: Baseline, host: string, read: IntReader)
    requires baseline.Held?
    ensures ReadLine(baseline, "# host: " + host, read) == baseline.(host := Some(host))
  {
    var line := "# host: " + host;
    assert line[..8] == "# host: " && line[8..] == host;
  }

  lemma {:induction false} ReadOneMore(lines: seq<string>, line: string, read: IntReader)
    ensures ReadLines(lines + [line], read) == ReadLine(ReadLines(lines, read), line, read)
  {
    assert (lines + [line])[..|lines|] == lines;
  }

  /** What the lines about the toolchain and the trend are not. */
  lemma {:induction false} OtherComments(toolchain: string, trend: string)
    ensures IsSkipped("# toolchain: " + toolchain) && !("# host: " <= "# toolchain: " + toolchain)
    ensures !("# trend:" <= "# toolchain: " + toolchain)
    ensures IsSkipped("# trend: " + trend) && !("# host: " <= "# trend: " + trend)
  {
    var first, second := "# toolchain: " + toolchain, "# trend: " + trend;
    assert first[..1] == "#" && first[2] == 't' && first[3] == 'o';
    assert second[..1] == "#" && second[2] == 't';
    assert "# host: "[2] == 'h' && "# trend:"[3] == 'r';
  }

  lemma {:induction false} HeaderIsRead(
      prose: string, columns: string, toolchain: string, host: string, trend: seq<string>, space: char -> bool,
      read: IntReader)
    requires PlainHeader(prose, columns, toolchain, host, trend, space)
    ensures ReadLines(HeaderOf(prose, toolchain, host, trend, columns), read) == Held([], Some(host))
  {
    var first, second := "# toolchain: " + toolchain, "# host: " + host;
    var third := if trend == [] then "" else "# trend: " + Joined(trend, ' ');
    OtherComments(toolchain, if trend == [] then "" else Joined(trend, ' '));
    HostIsRead(Held([], None), host, read);
    ColumnsAreNoHost(columns);
    hide ReadLine, IsSkipped, Joined;
    assert ReadLines([], read) == Held([], None);
    assert ([] + [prose]) + [first] + [second] == [prose, first, second];
    ReadOneMore([], prose, read);
    ReadOneMore([] + [prose], first, read);
    ReadOneMore([] + [prose] + [first], second, read);
    SkippedIsSkipped(Held([], None), prose, read);
    SkippedIsSkipped(Held([], None), first, read);
    var three := [prose, first, second];
    assert ReadLines(three, read) == Held([], Some(host));
    if trend != [] {
      ReadOneMore(three, third, read);
      SkippedIsSkipped(Held([], Some(host)), third, read);
      ReadOneMore(three + [third], columns, read);
    } else {
      assert three + [] == three;
      ReadOneMore(three, columns, read);
    }
    SkippedIsSkipped(Held([], Some(host)), columns, read);
  }

  lemma {:induction false} ColumnsAreNoHost(columns: string)
    requires Header() <= columns
    ensures !("# host: " <= columns) && !("# trend:" <= columns)
  {
    assert columns[0] == 'b' && "# host: "[0] == '#' && "# trend:"[0] == '#';
  }

  /** Every line written is one line. */
  lemma {:induction false} LinesAreUnbroken(
      prose: string, columns: string, rows: seq<Row>, toolchain: string, host: string, trend: seq<string>,
      space: char -> bool)
    requires PlainHeader(prose, columns, toolchain, host, trend, space)
    requires forall k :: 0 <= k < |rows| ==> Unbroken(rows[k].benchmark)
    ensures var lines := HeaderOf(prose, toolchain, host, trend, columns) + RowLines(rows);
      forall k :: 0 <= k < |lines| ==> Unbroken(lines[k])
  {
    hide Unbroken, HeaderOf, PlainHeader;
    HeaderIsUnbroken(prose, columns, toolchain, host, trend, space);
    forall k | 0 <= k < |rows| ensures Unbroken(RowLines(rows)[k]) {
      RowIsUnbroken(rows[k]);
    }
  }

  lemma {:induction false} HeaderIsUnbroken(
      prose: string, columns: string, toolchain: string, host: string, trend: seq<string>, space: char -> bool)
    requires PlainHeader(prose, columns, toolchain, host, trend, space)
    ensures forall k :: 0 <= k < |HeaderOf(prose, toolchain, host, trend, columns)| ==>
      Unbroken(HeaderOf(prose, toolchain, host, trend, columns)[k])
  {
    if trend != [] {
      WordsAreUnbroken(trend, space);
      PrefixedIsUnbroken("# trend: ", Joined(trend, ' '));
    }
    PrefixedIsUnbroken("# toolchain: ", toolchain);
    PrefixedIsUnbroken("# host: ", host);
  }

  lemma {:induction false} PrefixedIsUnbroken(prefix: string, text: string)
    requires Unbroken(prefix) && Unbroken(text)
    ensures Unbroken(prefix + text)
  {
  }

  lemma {:induction false} WordsAreUnbroken(words: seq<string>, space: char -> bool)
    requires words != [] && forall k :: 0 <= k < |words| ==> IsWord(words[k], space)
    ensures Unbroken(Joined(words, ' '))
  {
    if |words| > 1 {
      WordsAreUnbroken(words[1..], space);
    }
  }

  /** What is read back of a baseline whose names are one cell each: the rows not taken
      for other lines, and the host, unless a row is taken for a line of it. */
  lemma {:induction false} BaselineIsRead(
      prose: string, columns: string, rows: seq<Row>, toolchain: string, host: string, trend: seq<string>,
      space: char -> bool, read: IntReader)
    requires ReadsNumerals(read) && PlainRows(rows) && PlainHeader(prose, columns, toolchain, host, trend, space)
    ensures ReadLines(SplitLines(WriteBaseline(prose, columns, rows, toolchain, host, trend)), read)
         == Held(Tabled(Kept(rows)), Some(HostOf(rows, host)))
  {
    PlainIsUnbroken(rows);
    hide HeaderOf, RowLines, SplitLines, Text, PlainHeader, PlainRows, ReadsNumerals, ReadLines, Unbroken;
    LinesAreUnbroken(prose, columns, rows, toolchain, host, trend, space);
    LinesAreSplit(HeaderOf(prose, toolchain, host, trend, columns) + RowLines(rows));
    HeaderIsRead(prose, columns, toolchain, host, trend, space, read);
    RowsRead(HeaderOf(prose, toolchain, host, trend, columns), rows, host, read);
  }

  lemma {:induction false} PlainIsUnbroken(rows: seq<Row>)
    requires PlainRows(rows)
    ensures forall k :: 0 <= k < |rows| ==> Unbroken(rows[k].benchmark)
  {
  }

  predicate NoneTaken(rows: seq<Row>) {
    forall k :: 0 <= k < |rows| ==> !IsTaken(rows[k].benchmark)
  }

  lemma {:induction false} KeptIsWhole(rows: seq<Row>)
    requires NoneTaken(rows)
    ensures Kept(rows) == rows
  {
    hide IsTaken;
    if rows != [] {
      var n := |rows| - 1;
      KeptIsWhole(rows[..n]);
      assert rows == rows[..n] + [rows[n]];
    }
  }

  lemma {:induction false} HostIsKept(rows: seq<Row>, host: string)
    requires NoneTaken(rows)
    ensures HostOf(rows, host) == host
  {
    hide IsTaken, RowLine;
    if rows != [] {
      var n := |rows| - 1;
      HostIsKept(rows[..n], host);
      if "# host: " <= rows[n].benchmark {
        HostIsTaken(rows[n].benchmark);
      }
    }
  }

  lemma {:induction false} TabledKeys(rows: seq<Row>)
    ensures DistinctKeys(Tabled(rows))
    ensures forall key :: key in Keys(Tabled(rows)) <==> exists k :: 0 <= k < |rows| && rows[k].benchmark == key
  {
    if rows != [] {
      var n := |rows| - 1;
      TabledKeys(rows[..n]);
      UpdatedKeys(Tabled(rows[..n]), rows[n].benchmark, rows[n].counts);
      assert forall k :: 0 <= k < n ==> rows[..n][k] == rows[k];
    }
  }

  // --- Which names are read back ----------------------------------------

  /** One cell of one line, that no other line starts with. */
  predicate IsReadable(name: string) {
    Plain(name) && !IsTaken(name)
  }

  predicate AllUnbroken(lines: seq<string>) {
    forall k :: 0 <= k < |lines| ==> Unbroken(lines[k])
  }

  lemma {:induction false} SplitIsUnbroken(text: string)
    ensures AllUnbroken(SplitLines(text))
    decreases |text|
  {
    if text != "" {
      var length := LineLength(text);
      var rest := text[length..];
      SplitIsUnbroken(rest[BreakLength(rest)..]);
      var more := SplitLines(rest[BreakLength(rest)..]);
      assert SplitLines(text) == [text[..length]] + more;
    }
  }

  lemma {:induction false} FirstCell(text: string)
    ensures var cell := Split(text, '\t')[0]; cell <= text && '\t' !in cell
  {
    if text != "" && text[0] != '\t' {
      FirstCell(text[1..]);
      assert text == [text[0]] + text[1..];
    }
  }

  lemma {:induction false} RowIsReadable(line: string, read: IntReader)
    requires Unbroken(line) && !IsSkipped(line) && RowOf(line, read).Some?
    ensures IsReadable(RowOf(line, read).value.benchmark)
  {
    var name := Split(line, '\t')[0];
    FirstCell(line);
    assert name <= line && '\t' !in name;
    assert forall k :: 0 <= k < |name| ==> name[k] == line[k];
    assert "#" <= name ==> "#" <= line;
    assert Header() <= name ==> Header() <= line;
  }

  ghost predicate AllReadable(baseline: Baseline) {
    baseline.Held? ==>
      && DistinctKeys(baseline.rows)
      && forall key :: key in Keys(baseline.rows) ==> IsReadable(key)
  }

  /** Whatever is read has readable names only. */
  lemma {:induction false} ReadIsReadable(lines: seq<string>, read: IntReader)
    requires AllUnbroken(lines)
    ensures AllReadable(ReadLines(lines, read))
  {
    if lines != [] {
      var n := |lines| - 1;
      ReadIsReadable(lines[..n], read);
      hide IsReadable, Updated, Unbroken, RowOf, IsSkipped;
      var baseline := ReadLines(lines[..n], read);
      if baseline.Held? && !("# host: " <= lines[n]) && !IsSkipped(lines[n]) && RowOf(lines[n], read).Some? {
        var row := RowOf(lines[n], read).value;
        RowIsReadable(lines[n], read);
        UpdatedKeys(baseline.rows, row.benchmark, row.counts);
      }
    }
  }

  /** The exact condition, of all names: the rows are read back as they were written
      exactly when every name is one cell of one line and starts neither as a comment
      nor as the line of columns; the host then is, too. */
  lemma {:induction false} BaselineIsReadIff(
      prose: string, columns: string, rows: seq<Row>, toolchain: string, host: string, trend: seq<string>,
      space: char -> bool, read: IntReader)
    requires ReadsNumerals(read) && PlainHeader(prose, columns, toolchain, host, trend, space)
    ensures var baseline := ReadLines(SplitLines(WriteBaseline(prose, columns, rows, toolchain, host, trend)), read);
      var readable := forall k :: 0 <= k < |rows| ==> IsReadable(rows[k].benchmark);
      && (baseline.Held? && baseline.rows == Tabled(rows) <==> readable)
      && (baseline == Held(Tabled(rows), Some(host)) <==> readable)
  {
    hide ReadLines, SplitLines, WriteBaseline, PlainHeader, ReadsNumerals, IsTaken, Plain, Tabled, Keys;
    var text := WriteBaseline(prose, columns, rows, toolchain, host, trend);
    if forall k :: 0 <= k < |rows| ==> IsReadable(rows[k].benchmark) {
      BaselineIsRead(prose, columns, rows, toolchain, host, trend, space, read);
      KeptIsWhole(rows);
      HostIsKept(rows, host);
    } else {
      var k :| 0 <= k < |rows| && !IsReadable(rows[k].benchmark);
      SplitIsUnbroken(text);
      ReadIsReadable(SplitLines(text), read);
      TabledKeys(rows);
      assert rows[k].benchmark in Keys(Tabled(rows));
    }
  }

  /** A row that is written and not read. */
  lemma {:induction false} RowIsNotRead(
      prose: string, columns: string, toolchain: string, host: string, trend: seq<string>, space: char -> bool,
      read: IntReader)
    requires ReadsNumerals(read) && PlainHeader(prose, columns, toolchain, host, trend, space)
    ensures var row := Row("benchmark_x", Counts(1, 2, 3));
      && RowLine(row) == "benchmark_x\t1\t2\t3"
      && ReadLines(SplitLines(WriteBaseline(prose, columns, [row], toolchain, host, trend)), read)
           == Held([], Some(host))
  {
    var row := Row("benchmark_x", Counts(1, 2, 3));
    hide ReadLines, SplitLines, WriteBaseline, PlainHeader, ReadsNumerals, RowLine, Plain, IsTaken;
    NameIsTaken(row.benchmark);
    OneTwoThree(row);
    LoneRowIsLost(row, prose, columns, toolchain, host, trend, space, read);
  }

  lemma {:induction false} LoneRowIsLost(
      row: Row, prose: string, columns: string, toolchain: string, host: string, trend: seq<string>,
      space: char -> bool, read: IntReader)
    requires ReadsNumerals(read) && PlainHeader(prose, columns, toolchain, host, trend, space)
    requires Plain(row.benchmark) && IsTaken(row.benchmark) && !("# host: " <= row.benchmark)
    ensures ReadLines(SplitLines(WriteBaseline(prose, columns, [row], toolchain, host, trend)), read)
      == Held([], Some(host))
  {
    hide ReadLines, SplitLines, WriteBaseline, PlainHeader, ReadsNumerals, RowLine, Plain, IsTaken, Kept, HostOf,
      Tabled;
    BaselineIsRead(prose, columns, [row], toolchain, host, trend, space, read);
    LoneRowIsTaken(row, host);
  }

  lemma {:induction false} NameIsTaken(name: string)
    requires name == "benchmark_x"
    ensures Plain(name) && IsTaken(name) && !("# host: " <= name)
  {
    assert name[..9] == Header() && name[0] == 'b' && "# host: "[0] == '#';
  }

  lemma {:induction false} OneTwoThree(row: Row)
    requires row.counts == Counts(1, 2, 3)
    ensures RowLine(row) == row.benchmark + "\t1\t2\t3"
  {
    assert Str(1) == "1" && Str(2) == "2" && Str(3) == "3";
    RowLineIs(row);
  }

  lemma {:induction false} LoneRowIsTaken(row: Row, host: string)
    requires IsTaken(row.benchmark) && !("# host: " <= row.benchmark)
    ensures Tabled(Kept([row])) == [] && HostOf([row], host) == host
  {
    hide IsTaken, RowLine;
    assert [row][..0] == [];
  }

  lemma {:induction false} LineAndRest(line: string, rest: seq<string>)
    ensures Text([line] + rest) == line + "\n" + Text(rest)
  {
    assert ([line] + rest)[1..] == rest;
  }

  /** A baseline of one row, to the character. */
  lemma {:induction false} BaselineIsWritten(
      prose: string, columns: string, name: string, toolchain: string, host: string, group: string)
    ensures WriteBaseline(prose, columns, [Row(name, Counts(1, 2, 3))], toolchain, host, [group])
      == prose + "\n" + ("# toolchain: " + toolchain + "\n" + ("# host: " + host + "\n" +
         ("# trend: " + group + "\n" + (columns + "\n" + (name + "\t1\t2\t3" + "\n" + "")))))
  {
    var row := Row(name, Counts(1, 2, 3));
    var first, second, third := "# toolchain: " + toolchain, "# host: " + host, "# trend: " + group;
    OneTwoThree(row);
    hide RowLine, Text;
    var last := [RowLine(row)];
    assert RowLines([row]) == last;
    assert Joined([group], ' ') == group;
    assert HeaderOf(prose, toolchain, host, [group], columns) + last
      == [prose] + ([first] + ([second] + ([third] + ([columns] + (last + [])))));
    NoText();
    LineAndRest(RowLine(row), []);
    LineAndRest(columns, last + []);
    LineAndRest(third, [columns] + (last + []));
    LineAndRest(second, [third] + ([columns] + (last + [])));
    LineAndRest(first, [second] + ([third] + ([columns] + (last + []))));
    LineAndRest(prose, [first] + ([second] + ([third] + ([columns] + (last + [])))));
  }

  lemma {:induction false} NoText()
    ensures Text([]) == ""
  {
  }

  // --- The groups, read back --------------------------------------------

  lemma {:induction false} WordIsRead(word: string, rest: string, space: char -> bool)
    requires (forall k :: 0 <= k < |word| ==> !space(word[k])) && (rest == "" || space(rest[0]))
    ensures WordLength(word + rest, space) == |word|
  {
    if word != "" {
      TailOfConcat(word, rest);
      WordIsRead(word[1..], rest, space);
    }
  }

  lemma {:induction false} WordsAreRead(words: seq<string>, space: char -> bool)
    requires space(' ') && words != [] && forall k :: 0 <= k < |words| ==> IsWord(words[k], space)
    ensures Words(Joined(words, ' '), space) == words
  {
    var text := Joined(words, ' ');
    if |words| == 1 {
      WordIsRead(text, "", space);
      assert text + "" == text && text[|text|..] == "" && words == [text];
    } else {
      var rest := Joined(words[1..], ' ');
      WordIsRead(words[0], " " + rest, space);
      assert text == words[0] + (" " + rest);
      assert text[..|words[0]|] == words[0] && text[|words[0]|..] == " " + rest && (" " + rest)[1..] == rest;
      WordsAreRead(words[1..], space);
    }
  }

  lemma {:induction false} TrendLineIsRead(trend: seq<string>, space: char -> bool)
    requires space(' ') && trend != [] && forall k :: 0 <= k < |trend| ==> IsWord(trend[k], space)
    ensures var line := "# trend: " + Joined(trend, ' ');
      "# trend:" <= line && Words(line[8..], space) == trend
  {
    var words := Joined(trend, ' ');
    TrendPrefix(words);
    hide Joined, Words;
    SpaceIsSkipped(words, space);
    WordsAreRead(trend, space);
  }

  lemma {:induction false} TrendPrefix(words: string)
    ensures var line := "# trend: " + words; "# trend:" <= line && line[8..] == " " + words
  {
    var line := "# trend: " + words;
    assert line[..8] == "# trend:";
  }

  lemma {:induction false} SpaceIsSkipped(text: string, space: char -> bool)
    requires space(' ')
    ensures Words(" " + text, space) == Words(text, space)
  {
    assert (" " + text)[1..] == text;
  }

  /** What `splitlines` makes of the lines behind unbroken ones. */
  lemma {:induction false} FirstLinesAreSplit(first: seq<string>, rest: seq<string>)
    requires forall k :: 0 <= k < |first| ==> Unbroken(first[k])
    ensures SplitLines(Text(first + rest)) == first + SplitLines(Text(rest))
  {
    if first == [] {
      assert first + rest == rest;
    } else {
      hide SplitLines, Unbroken, Text;
      FirstLinesAreSplit(first[1..], rest);
      FirstOfLines(first, rest);
      FirstLineIsSplit(first[0], Text(first[1..] + rest));
      Associative([first[0]], first[1..], SplitLines(Text(rest)));
      assert [first[0]] + first[1..] == first;
    }
  }

  lemma {:induction false} FirstOfLines(first: seq<string>, rest: seq<string>)
    requires first != []
    ensures Text(first + rest) == first[0] + "\n" + Text(first[1..] + rest)
  {
    TailOfConcat(first, rest);
  }

  /** The groups that are never compared are carried over, whatever the rows are named. */
  lemma {:induction false} TrendIsRead(
      prose: string, columns: string, rows: seq<Row>, toolchain: string, host: string, trend: seq<string>,
      space: char -> bool)
    requires PlainHeader(prose, columns, toolchain, host, trend, space) && space(' ') && trend != []
    ensures TrendOf(SplitLines(WriteBaseline(prose, columns, rows, toolchain, host, trend)), space)
         == set group | group in trend
  {
    var header := HeaderOf(prose, toolchain, host, trend, columns);
    HeaderIsUnbroken(prose, columns, toolchain, host, trend, space);
    hide SplitLines, Text;
    FirstLinesAreSplit(header, RowLines(rows));
    TrendOfLines(prose, columns, SplitLines(Text(RowLines(rows))), toolchain, host, trend, space);
  }

  lemma {:induction false} TrendOfLines(
      prose: string, columns: string, rest: seq<string>, toolchain: string, host: string, trend: seq<string>,
      space: char -> bool)
    requires PlainHeader(prose, columns, toolchain, host, trend, space) && space(' ')
    ensures TrendOf(HeaderOf(prose, toolchain, host, trend, columns) + rest, space)
         == if trend == [] then TrendOf(rest, space) else set group | group in trend
  {
    var first, second := "# toolchain: " + toolchain, "# host: " + host;
    OtherComments(toolchain, "");
    HostIsNoTrend(host);
    ColumnsAreNoHost(columns);
    hide Joined, Words;
    var third := if trend == [] then [] else ["# trend: " + Joined(trend, ' ')];
    var more := third + [columns] + rest;
    assert HeaderOf(prose, toolchain, host, trend, columns) + rest == [prose] + ([first] + ([second] + more));
    TrendSkips(prose, [first] + ([second] + more), space);
    TrendSkips(first, [second] + more, space);
    TrendSkips(second, more, space);
    if trend == [] {
      assert more == [columns] + rest;
      TrendSkips(columns, rest, space);
    } else {
      TrendLineIsRead(trend, space);
    }
  }

  /** No blank is a digit or a sign. */
  predicate LeavesNumerals(space: char -> bool) {
    !space('-') && forall c: char :: IsDigit(c) ==> !space(c)
  }

  /** Where there are none, none are read back exactly when no row's line is taken for
      theirs. */
  lemma {:induction false} NoTrendIsReadIff(
      prose: string, columns: string, rows: seq<Row>, toolchain: string, host: string, space: char -> bool)
    requires PlainHeader(prose, columns, toolchain, host, [], space) && space(' ') && LeavesNumerals(space)
    requires forall k :: 0 <= k < |rows| ==> Unbroken(rows[k].benchmark)
    ensures TrendOf(SplitLines(WriteBaseline(prose, columns, rows, toolchain, host, [])), space) == {}
      <==> forall k :: 0 <= k < |rows| ==> !("# trend:" <= rows[k].benchmark)
  {
    hide SplitLines, Text, PlainHeader, RowLine, HeaderOf, Unbroken;
    LinesAreUnbroken(prose, columns, rows, toolchain, host, [], space);
    LinesAreSplit(HeaderOf(prose, toolchain, host, [], columns) + RowLines(rows));
    TrendOfLines(prose, columns, RowLines(rows), toolchain, host, [], space);
    TrendOfRows(rows, space);
  }

  lemma {:induction false} TrendOfRows(rows: seq<Row>, space: char -> bool)
    requires LeavesNumerals(space)
    ensures TrendOf(RowLines(rows), space) == {} <==> forall k :: 0 <= k < |rows| ==> !("# trend:" <= rows[k].benchmark)
  {
    hide RowLine, LeavesNumerals, Words;
    if rows != [] {
      var lines := RowLines(rows);
      RowLineStarts(rows[0]);
      assert lines[1..] == RowLines(rows[1..]);
      if "# trend:" <= rows[0].benchmark {
        RowHasWords(rows[0], space);
        var words := Words(lines[0][8..], space);
        assert words[0] in TrendOf(lines, space);
      } else {
        TrendOfRows(rows[1..], space);
      }
    }
  }

  /** A row's line ends in a numeral, so it has a word. */
  lemma {:induction false} RowHasWords(row: Row, space: char -> bool)
    requires LeavesNumerals(space) && "# trend:" <= row.benchmark
    ensures "# trend:" <= RowLine(row) && Words(RowLine(row)[8..], space) != []
  {
    RowLineStarts(row);
    RowLineIs(row);
    hide Words, Str;
    var rest := CountCells(row.counts);
    var line := RowLine(row);
    assert Joined(rest, '\t') == rest[0] + ['\t'] + Joined(rest[1..], '\t');
    StrIsDark(row.counts.program, space);
    var at := |row.benchmark| + 1;
    assert line[at] == rest[0][0];
    HasWords(line[8..], at - 8, space);
  }

  lemma {:induction false} StrIsDark(n: int, space: char -> bool)
    requires LeavesNumerals(space)
    ensures Str(n) != "" && !space(Str(n)[0])
  {
    WrittenIsRead(if n < 0 then -n else n);
  }

  lemma {:induction false} HasWords(text: string, k: nat, space: char -> bool)
    requires k < |text| && !space(text[k])
    ensures Words(text, space) != []
  {
    if space(text[0]) {
      HasWords(text[1..], k - 1, space);
    }
  }

  lemma {:induction false} TrendSkips(line: string, rest: seq<string>, space: char -> bool)
    requires !("# trend:" <= line)
    ensures TrendOf([line] + rest, space) == TrendOf(rest, space)
  {
    assert ([line] + rest)[1..] == rest;
  }

  lemma {:induction false} HostIsNoTrend(host: string)
    ensures !("# trend:" <= "# host: " + host)
  {
    assert ("# host: " + host)[2] == 'h' && "# trend:"[2] == 't';
  }
}
