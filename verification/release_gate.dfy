/** The release gate of scripts/cost_features.py: what `unrecorded` calls a
    difference from the recorded baseline. */
module ReleaseGate {
  import opened Sequences
  import opened Dictionaries
  import opened CostTables
  import opened Options

  /** The compiler this run measures with. */
  datatype Versions = Versions(toolchain: string, host: string)

  datatype Reason =
    | NoBaseline
    | OtherToolchain
    | NoRow(row: string)
    | Differs(row: string, column: string, was: Option<int>, value: int)
    | NotMeasured(row: string)

  predicate SameToolchain(recorded: Option<Recorded>, versions: Versions) {
    recorded.Some? && recorded.value.toolchain == Some(versions.toolchain) && recorded.value.host == Some(versions.host)
  }

  function CellReasons(row: string, measured: Map<int>, was: Map<int>): seq<Reason> {
    if measured == [] then []
    else
      var n := |measured| - 1;
      var recorded := Lookup(was, measured[n].key);
      CellReasons(row, measured[..n], was)
      + if recorded != Some(measured[n].value) then [Differs(row, measured[n].key, recorded, measured[n].value)] else []
  }

  function RowReasons(rows: Table, recorded: Table): seq<Reason> {
    if rows == [] then []
    else
      var n := |rows| - 1;
      RowReasons(rows[..n], recorded)
      + match Lookup(recorded, rows[n].key)
        case None => [NoRow(rows[n].key)]
        case Some(was) => CellReasons(rows[n].key, rows[n].value, was)
  }

  function UnmeasuredReasons(recorded: Table, rows: Table): seq<Reason> {
    if recorded == [] then []
    else
      var n := |recorded| - 1;
      UnmeasuredReasons(recorded[..n], rows) +
        if recorded[n].key !in Keys(rows) then [NotMeasured(recorded[n].key)] else []
  }

  function Reasons(rows: Table, recorded: Option<Recorded>, versions: Versions): seq<Reason> {
    if recorded == None then [NoBaseline]
    else if !SameToolchain(recorded, versions) then [OtherToolchain]
    else RowReasons(rows, recorded.value.rows) + UnmeasuredReasons(recorded.value.rows, rows)
  }

  /** `unrecorded`. */
  method Unrecorded(rows: Table, recorded: Option<Recorded>, versions: Versions) returns (reasons: seq<Reason>)
    ensures reasons == Reasons(rows, recorded, versions)
  {
    if recorded == None {
      return [NoBaseline];
    }
    if !SameToolchain(recorded, versions) {
      return [OtherToolchain];
    }
    var table := recorded.value.rows;
    reasons := [];
    for j := 0 to |rows|
      invariant reasons == RowReasons(rows[..j], table)
    {
      var name, measured := rows[j].key, rows[j].value;
      assert rows[..j + 1][..j] == rows[..j];
      var was := Lookup(table, name);
      if was == None {
        reasons := reasons + [NoRow(name)];
        continue;
      }
      for k := 0 to |measured|
        invariant reasons == RowReasons(rows[..j], table) + CellReasons(name, measured[..k], was.value)
      {
        assert measured[..k + 1][..k] == measured[..k];
        ghost var before := CellReasons(name, measured[..k], was.value);
        var value := Lookup(was.value, measured[k].key);
        if value != Some(measured[k].value) {
          Associative(RowReasons(rows[..j], table), before, [Differs(name, measured[k].key, value, measured[k].value)]);
          reasons := reasons + [Differs(name, measured[k].key, value, measured[k].value)];
        }
      }
      assert measured[..|measured|] == measured;
    }
    assert rows[..|rows|] == rows;
    for j := 0 to |table|
      invariant reasons == RowReasons(rows, table) + UnmeasuredReasons(table[..j], rows)
    {
      assert table[..j + 1][..j] == table[..j];
      if table[j].key !in Keys(rows) {
        Associative(RowReasons(rows, table), UnmeasuredReasons(table[..j], rows), [NotMeasured(table[j].key)]);
        reasons := reasons + [NotMeasured(table[j].key)];
      }
    }
    assert table[..|table|] == table;
  }

  // --- What an empty answer means ---------------------------------------

  /** Every number in `measured` is in `was`, under the same name. */
  ghost predicate Within(measured: Map<int>, was: Map<int>) {
    forall k :: 0 <= k < |measured| ==> Lookup(was, measured[k].key) == Some(measured[k].value)
  }

  ghost predicate RowWithin(row: Entry<Map<int>>, recorded: Table) {
    var was := Lookup(recorded, row.key);
    was.Some? && Within(row.value, was.value)
  }

  ghost predicate RowsWithin(rows: Table, recorded: Table) {
    forall j :: 0 <= j < |rows| ==> RowWithin(rows[j], recorded)
  }

  lemma {:induction false} NoCellReasonsIff(row: string, measured: Map<int>, was: Map<int>)
    ensures CellReasons(row, measured, was) == [] <==> Within(measured, was)
  {
    if measured != [] {
      NoCellReasonsIff(row, measured[..|measured| - 1], was);
    }
  }

  lemma {:induction false} NoRowReasonsIff(rows: Table, recorded: Table)
    ensures RowReasons(rows, recorded) == [] <==> RowsWithin(rows, recorded)
  {
    hide Within, CellReasons, Lookup;
    if rows != [] {
      var n := |rows| - 1;
      NoRowReasonsIff(rows[..n], recorded);
      assert RowsWithin(rows, recorded) <==> RowsWithin(rows[..n], recorded) && RowWithin(rows[n], recorded);
      var was := Lookup(recorded, rows[n].key);
      if was.Some? {
        NoCellReasonsIff(rows[n].key, rows[n].value, was.value);
      }
    }
  }

  lemma {:induction false} NoUnmeasuredReasonsIff(recorded: Table, rows: Table)
    ensures UnmeasuredReasons(recorded, rows) == [] <==> Keys(recorded) <= Keys(rows)
  {
    if recorded != [] {
      var n := |recorded| - 1;
      NoUnmeasuredReasonsIff(recorded[..n], rows);
      assert Keys(recorded) == Keys(recorded[..n]) + {recorded[n].key};
    }
  }

  /** The gate passes exactly when the baseline was recorded by this compiler on this
      host, has the same rows and, in each, every number measured. */
  lemma {:induction false} GatePassesIff(rows: Table, recorded: Option<Recorded>, versions: Versions)
    ensures Reasons(rows, recorded, versions) == [] <==>
      && recorded.Some?
      && recorded.value.toolchain == Some(versions.toolchain) && recorded.value.host == Some(versions.host)
      && Keys(recorded.value.rows) == Keys(rows) && RowsWithin(rows, recorded.value.rows)
  {
    if SameToolchain(recorded, versions) {
      var table := recorded.value.rows;
      NoRowReasonsIff(rows, table);
      NoUnmeasuredReasonsIff(table, rows);
      assert forall j :: 0 <= j < |rows| && RowWithin(rows[j], table) ==> rows[j].key in Keys(table);
    }
  }

  // --- What each reason says --------------------------------------------

  /** `row` was measured and `reason` is what it gives rise to. */
  ghost predicate IsRowReason(reason: Reason, row: Entry<Map<int>>, recorded: Table) {
    match reason
    case NoRow(name) => name == row.key && name !in Keys(recorded)
    case Differs(name, column, was, value) =>
      && name == row.key && name in Keys(recorded)
      && was == Lookup(Lookup(recorded, name).value, column) && was != Some(value)
      && Entry(column, value) in row.value
    case _ => false
  }

  lemma {:induction false} CellReasonsAre(row: string, measured: Map<int>, was: Map<int>, reason: Reason)
    ensures reason in CellReasons(row, measured, was) <==>
      && reason.Differs? && reason.row == row
      && Entry(reason.column, reason.value) in measured
      && reason.was == Lookup(was, reason.column) && reason.was != Some(reason.value)
  {
    hide Lookup;
    if measured != [] {
      var n := |measured| - 1;
      CellReasonsAre(row, measured[..n], was, reason);
      assert measured == measured[..n] + [measured[n]];
    }
  }

  lemma {:induction false} RowReasonsAre(rows: Table, recorded: Table, reason: Reason)
    ensures reason in RowReasons(rows, recorded) <==>
      exists k :: 0 <= k < |rows| && IsRowReason(reason, rows[k], recorded)
  {
    hide CellReasons, IsRowReason, Lookup;
    if rows != [] {
      var n := |rows| - 1;
      RowReasonsAre(rows[..n], recorded, reason);
      assert forall k :: 0 <= k < n ==> rows[..n][k] == rows[k];
      LastRowReasons(rows, recorded, reason);
    }
  }

  lemma {:induction false} LastRowReasons(rows: Table, recorded: Table, reason: Reason)
    requires rows != []
    ensures var n := |rows| - 1;
      reason in RowReasons(rows, recorded) <==>
        reason in RowReasons(rows[..n], recorded) || IsRowReason(reason, rows[n], recorded)
  {
    hide CellReasons, Lookup;
    var row := rows[|rows| - 1];
    if Lookup(recorded, row.key).Some? {
      CellReasonsAre(row.key, row.value, Lookup(recorded, row.key).value, reason);
    }
  }

  lemma {:induction false} UnmeasuredReasonsAre(recorded: Table, rows: Table, reason: Reason)
    ensures reason in UnmeasuredReasons(recorded, rows) <==>
      reason.NotMeasured? && reason.row in Keys(recorded) && reason.row !in Keys(rows)
  {
    if recorded != [] {
      var n := |recorded| - 1;
      UnmeasuredReasonsAre(recorded[..n], rows, reason);
      assert recorded == recorded[..n] + [recorded[n]];
      assert Keys(recorded) == Keys(recorded[..n]) + {recorded[n].key};
    }
  }

  /** Each reason, exactly when it is given: no baseline, another compiler or host, and
      under the same ones a row that is new, a number that differs from the one recorded
      or has none, and a recorded row that was not measured. */
  lemma {:induction false} ReasonIsGivenIff(rows: Table, recorded: Option<Recorded>, versions: Versions, reason: Reason)
    ensures reason in Reasons(rows, recorded, versions) <==>
      if recorded.None? then reason == NoBaseline
      else if recorded.value.toolchain != Some(versions.toolchain) || recorded.value.host != Some(versions.host) then
        reason == OtherToolchain
      else match reason {
        case NoBaseline | OtherToolchain => false
        case NoRow(row) => row in Keys(rows) && row !in Keys(recorded.value.rows)
        case NotMeasured(row) => row in Keys(recorded.value.rows) && row !in Keys(rows)
        case Differs(row, column, was, value) =>
          && row in Keys(recorded.value.rows)
          && was == Lookup(Lookup(recorded.value.rows, row).value, column) && was != Some(value)
          && exists k :: 0 <= k < |rows| && rows[k].key == row && Entry(column, value) in rows[k].value
      }
  {
    hide Lookup, RowReasons, UnmeasuredReasons;
    if recorded.Some? {
      var table := recorded.value.rows;
      RowReasonsAre(rows, table, reason);
      UnmeasuredReasonsAre(table, rows, reason);
      if reason.NoRow? && reason.row in Keys(rows) && reason.row !in Keys(table) {
        var k :| 0 <= k < |rows| && rows[k].key == reason.row;
        assert IsRowReason(reason, rows[k], table);
      }
      if reason.Differs? {
        assert forall k :: 0 <= k < |rows| && IsRowReason(reason, rows[k], table) ==> rows[k].key == reason.row;
        if k :| 0 <= k < |rows| && rows[k].key == reason.row && Entry(reason.column, reason.value) in rows[k].value {
          assert IsRowReason(reason, rows[k], table) <==>
            && reason.row in Keys(table)
            && reason.was == Lookup(Lookup(table, reason.row).value, reason.column)
            && reason.was != Some(reason.value);
        }
      }
    }
  }

  // --- The numbers the same ---------------------------------------------

  /** Equal as dictionaries: order aside, the same keys with the same values. */
  ghost predicate SameNumbers(a: Map<int>, b: Map<int>) {
    forall column :: Lookup(a, column) == Lookup(b, column)
  }

  ghost predicate SameTable(rows: Table, recorded: Table) {
    && Keys(rows) == Keys(recorded)
    && forall row :: row in Keys(rows) ==> SameNumbers(Lookup(rows, row).value, Lookup(recorded, row).value)
  }

  ghost predicate DistinctTable(rows: Table) {
    DistinctKeys(rows) && forall j :: 0 <= j < |rows| ==> DistinctKeys(rows[j].value)
  }

  /** No recorded row has a column that its measured row lacks. */
  ghost predicate EveryColumnMeasured(rows: Table, recorded: Table) {
    forall row :: row in Keys(rows) && row in Keys(recorded) ==>
      Keys(Lookup(recorded, row).value) <= Keys(Lookup(rows, row).value)
  }

  lemma {:induction false} FoundIsEntry<T>(dict: Map<T>, key: string) returns (k: nat)
    requires key in Keys(dict)
    ensures k < |dict| && dict[k].key == key && Lookup(dict, key) == Some(dict[k].value)
  {
    KeysOfTail(dict);
    if dict[0].key == key {
      k := 0;
    } else {
      k := FoundIsEntry(dict[1..], key);
      k := k + 1;
    }
  }

  lemma {:induction false} SameNumbersIff(measured: Map<int>, was: Map<int>)
    requires DistinctKeys(measured)
    ensures SameNumbers(measured, was) <==> Within(measured, was) && Keys(was) <= Keys(measured)
  {
    if SameNumbers(measured, was) {
      forall k | 0 <= k < |measured| ensures Lookup(was, measured[k].key) == Some(measured[k].value) {
        EntryIsFound(measured, k);
      }
      forall column | column in Keys(was) ensures column in Keys(measured) {
        assert Lookup(was, column).Some?;
      }
    } else if Within(measured, was) && Keys(was) <= Keys(measured) {
      forall column ensures Lookup(measured, column) == Lookup(was, column) {
        if column in Keys(measured) {
          var k := FoundIsEntry(measured, column);
        }
      }
    }
  }

  /** Where every recorded column was measured, the gate passes exactly when
      compiler, host, rows and every number agree. */
  lemma {:induction false} GateIsExactIff(rows: Table, recorded: Option<Recorded>, versions: Versions)
    requires DistinctTable(rows) && SameToolchain(recorded, versions) && Reasons(rows, recorded, versions) == []
    ensures SameTable(rows, recorded.value.rows) <==> EveryColumnMeasured(rows, recorded.value.rows)
  {
    var table := recorded.value.rows;
    GatePassesIff(rows, recorded, versions);
    forall row | row in Keys(rows)
      ensures SameNumbers(Lookup(rows, row).value, Lookup(table, row).value)
        <==> Keys(Lookup(table, row).value) <= Keys(Lookup(rows, row).value)
    {
      var k := FoundIsEntry(rows, row);
      SameNumbersIff(rows[k].value, Lookup(table, row).value);
    }
  }

  /** And a run whose numbers are the recorded ones always passes. */
  lemma {:induction false} SameTablePasses(rows: Table, recorded: Option<Recorded>, versions: Versions)
    requires DistinctTable(rows) && SameToolchain(recorded, versions) && SameTable(rows, recorded.value.rows)
    ensures Reasons(rows, recorded, versions) == []
  {
    var table := recorded.value.rows;
    forall j | 0 <= j < |rows|
      ensures RowWithin(rows[j], table)
    {
      EntryIsFound(rows, j);
      SameNumbersIff(rows[j].value, Lookup(table, rows[j].key).value);
    }
    GatePassesIff(rows, recorded, versions);
  }

  /** The other half fails: a column that is recorded and no longer measured is not
      seen, though recording would drop it. */
  lemma {:induction false} DroppedColumnIsNotSeen(versions: Versions)
    ensures var rows: Table := [Entry("openapi31", [Entry("lines", 1)])];
      var table: Table := [Entry("openapi31", [Entry("lines", 1), Entry("copies", 2)])];
      var recorded := Some(Recorded(Some(versions.toolchain), Some(versions.host), table));
      Reasons(rows, recorded, versions) == [] && !SameTable(rows, table)
  {
    var measured: Map<int> := [Entry("lines", 1)];
    var was: Map<int> := [Entry("lines", 1), Entry("copies", 2)];
    var rows: Table := [Entry("openapi31", measured)];
    var table: Table := [Entry("openapi31", was)];
    assert Within(measured, was);
    assert Lookup(table, "openapi31") == Some(was) && Lookup(rows, "openapi31") == Some(measured);
    assert Keys(rows) == {"openapi31"} && Keys(table) == {"openapi31"};
    GatePassesIff(rows, Some(Recorded(Some(versions.toolchain), Some(versions.host), table)), versions);
    assert was[1..][0].key == "copies" && Lookup(was, "copies") == Some(2);
    assert measured[1..] == [] && Lookup(measured, "copies") == None;
  }

  // --- Recording clears the gate ----------------------------------------

  /** End to end: after recording a table, a run over the same columns passes the
      gate exactly when it is by the compiler the header states and its table is the
      recorded one. */
  lemma {:induction false} RecordingClearsIff(
      header: seq<string>, names: seq<string>, written: Table, rows: Table, versions: Versions, space: char -> bool,
      read: IntReader)
    requires ReadsNumerals(read) && HeaderLines(header) && Writable(names, written) && HasColumns(names, written)
    requires written != [] && Writable(names, rows) && HasColumns(names, rows)
    ensures var parsed := ParseLines(SplitLines(WriteTsv(header, names, written)), space, read);
      && parsed.Parsed?
      && (Reasons(rows, Some(parsed.recorded), versions) == [] <==>
          StatedFor(header, "toolchain", space) == Some(versions.toolchain)
            && StatedFor(header, "host", space) == Some(versions.host) && SameTable(rows, written))
  {
    hide ParseLines, SplitLines, WriteTsv, Reasons, StatedFor, Writable, HasColumns, SameTable, HeaderLines,
      ReadsNumerals;
    ParseInvertsWriting(header, names, written, space, read);
    var recorded := Recorded(StatedFor(header, "toolchain", space), StatedFor(header, "host", space), written);
    WritableIsDistinct(names, rows);
    if SameToolchain(Some(recorded), versions) {
      SameColumnsMeasured(names, rows, written);
      if Reasons(rows, Some(recorded), versions) == [] {
        GateIsExactIff(rows, Some(recorded), versions);
      } else if SameTable(rows, written) {
        SameTablePasses(rows, Some(recorded), versions);
      }
    } else {
      GatePassesIff(rows, Some(recorded), versions);
    }
  }

  lemma {:induction false} WritableIsDistinct(names: seq<string>, rows: Table)
    requires Writable(names, rows)
    ensures DistinctTable(rows)
  {
    WritableHasColumns(names, rows);
  }

  lemma {:induction false} SameColumnsMeasured(names: seq<string>, rows: Table, written: Table)
    requires Writable(names, rows) && Writable(names, written)
    ensures EveryColumnMeasured(rows, written)
  {
    forall row | row in Keys(rows) && row in Keys(written)
      ensures Keys(Lookup(written, row).value) <= Keys(Lookup(rows, row).value)
    {
      var j := FoundIsEntry(rows, row);
      var k := FoundIsEntry(written, row);
      assert WritableRow(names, rows[j]) && WritableRow(names, written[k]);
      ColumnsAreNames(names, rows[j].value);
      ColumnsAreNames(names, written[k].value);
    }
  }

  lemma {:induction false} ColumnsAreNames(names: seq<string>, values: Map<int>)
    requires Matches(names, values)
    ensures Keys(values) == set k | 0 <= k < |names| :: names[k]
  {
  }
}
