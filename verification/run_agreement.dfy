/** The exactness check of scripts/profile_report.py: `inexact`, over repeated runs
    of the same benchmarks. */
module RunAgreement {
  import opened Sequences
  import opened Dictionaries

  /** `counts`: the three exact numbers of a row. */
  datatype Counts = Counts(program: int, blocks: int, octets: int)

  datatype Row = Row(benchmark: string, counts: Counts)

  type Run = seq<Row>

  type Trend = set<string>

  /** The benchmark's name up to its first dot. */
  function Group(benchmark: string): string {
    if benchmark == "" || benchmark[0] == '.' then "" else [benchmark[0]] + Group(benchmark[1..])
  }

  predicate InTrend(benchmark: string, trend: Trend) {
    Group(benchmark) in trend
  }

  // --- The check --------------------------------------------------------

  function CountsOf(row: Row, benchmark: string): seq<Counts> {
    if row.benchmark == benchmark then [row.counts] else []
  }

  /** What a run counted for `benchmark`, once for each row that names it. */
  function CountsIn(run: Run, benchmark: string): seq<Counts> {
    if run == [] then []
    else
      var last := run[|run| - 1];
      CountsIn(run[..|run| - 1], benchmark) + CountsOf(last, benchmark)
  }

  function Measured(runs: seq<Run>, benchmark: string): seq<Counts> {
    if runs == [] then [] else Measured(runs[..|runs| - 1], benchmark) + CountsIn(runs[|runs| - 1], benchmark)
  }

  predicate Inconsistent(measured: seq<Counts>, runs: nat) {
    |measured| != runs || exists j, k :: 0 <= j < k < |measured| && measured[j] != measured[k]
  }

  /** The dictionary of what was measured: every benchmark that was. */
  ghost predicate Holds(seen: Map<seq<Counts>>, measured: string -> seq<Counts>) {
    && DistinctKeys(seen)
    && (forall k :: 0 <= k < |seen| ==> seen[k].value == measured(seen[k].key))
    && forall benchmark :: benchmark in Keys(seen) <==> measured(benchmark) != []
  }

  function Appended(seen: Map<seq<Counts>>, row: Row): Map<seq<Counts>> {
    var before := match Lookup(seen, row.benchmark) case None => [] case Some(counts) => counts;
    Updated(seen, row.benchmark, before + [row.counts])
  }

  lemma {:induction false} UpdatedKeys<T>(dict: Map<T>, key: string, value: T)
    requires DistinctKeys(dict)
    ensures Keys(Updated(dict, key, value)) == Keys(dict) + {key}
    ensures DistinctKeys(Updated(dict, key, value))
    ensures forall k :: 0 <= k < |Updated(dict, key, value)| ==>
      var entry := Updated(dict, key, value)[k]; if entry.key == key then entry.value == value else entry in dict
  {
    var next := Updated(dict, key, value);
    if dict == [] {
      assert next[0].key == key;
    } else {
      KeysOfTail(dict);
      KeysOfTail(next);
      if dict[0].key == key {
        assert next[1..] == dict[1..];
      } else {
        var more := Updated(dict[1..], key, value);
        assert next[1..] == more;
        UpdatedKeys(dict[1..], key, value);
        forall k | 0 <= k < |more| ensures more[k].key != dict[0].key {
          assert more[k].key in Keys(more);
        }
      }
    }
  }

  lemma {:induction false} HoldsOneMore(
      seen: Map<seq<Counts>>, row: Row, measured: string -> seq<Counts>, more: string -> seq<Counts>)
    requires Holds(seen, measured)
    requires forall benchmark :: more(benchmark) == measured(benchmark) + CountsOf(row, benchmark)
    ensures Holds(Appended(seen, row), more)
  {
    var key := row.benchmark;
    var next := Appended(seen, row);
    UpdatedKeys(seen, key, next[0].value);
    var before := match Lookup(seen, key) case None => [] case Some(counts) => counts;
    UpdatedKeys(seen, key, before + [row.counts]);
    assert before == measured(key) by {
      if key in Keys(seen) {
        var k :| 0 <= k < |seen| && seen[k].key == key;
        EntryIsFound(seen, k);
      }
    }
  }

  /** What was measured in whole runs and the part of one more. */
  function MeasuredWith(runs: seq<Run>, part: Run): string -> seq<Counts> {
    benchmark => Measured(runs, benchmark) + CountsIn(part, benchmark)
  }

  lemma {:induction false} NothingYet()
    ensures forall runs :: runs == [] ==> Holds([], MeasuredWith(runs, []))
  {
  }

  lemma {:induction false} RowMeasured(runs: seq<Run>, run: Run, k: nat)
    requires k < |run|
    ensures forall benchmark ::
      MeasuredWith(runs, run[..k + 1])(benchmark)
        == MeasuredWith(runs, run[..k])(benchmark) + CountsOf(run[k], benchmark)
  {
    assert run[..k + 1][..k] == run[..k];
    forall benchmark
      ensures MeasuredWith(runs, run[..k + 1])(benchmark)
        == MeasuredWith(runs, run[..k])(benchmark) + CountsOf(run[k], benchmark)
    {
      Associative(Measured(runs, benchmark), CountsIn(run[..k], benchmark), CountsOf(run[k], benchmark));
    }
  }

  lemma {:induction false} RunMeasured(runs: seq<Run>, j: nat)
    requires j < |runs|
    ensures forall benchmark ::
      MeasuredWith(runs[..j], runs[j])(benchmark) == MeasuredWith(runs[..j + 1], [])(benchmark)
  {
    assert runs[..j + 1][..j] == runs[..j];
    RunsMeasured(runs[..j + 1]);
  }

  lemma {:induction false} RunsMeasured(runs: seq<Run>)
    ensures forall benchmark :: MeasuredWith(runs, [])(benchmark) == Measured(runs, benchmark)
  {
    forall benchmark ensures MeasuredWith(runs, [])(benchmark) == Measured(runs, benchmark) {
      assert CountsIn([], benchmark) == [] && Measured(runs, benchmark) + [] == Measured(runs, benchmark);
    }
  }

  /** `inexact`: the benchmarks outside the trend whose counts differ between runs or
      that are not counted once a run, with what was counted. */
  method Inexact(runs: seq<Run>, trend: Trend) returns (problems: Map<seq<Counts>>)
    ensures DistinctKeys(problems)
    ensures forall k :: 0 <= k < |problems| ==> problems[k].value == Measured(runs, problems[k].key)
    ensures forall benchmark :: benchmark in Keys(problems) <==> IsInexact(runs, trend, benchmark)
  {
    hide Measured, CountsIn, Appended, Inconsistent, Group;
    var seen: Map<seq<Counts>> := [];
    NothingYet();
    for j := 0 to |runs|
      invariant Holds(seen, MeasuredWith(runs[..j], []))
    {
      var run := runs[j];
      for k := 0 to |run|
        invariant Holds(seen, MeasuredWith(runs[..j], run[..k]))
      {
        RowMeasured(runs[..j], run, k);
        HoldsOneMore(seen, run[k], MeasuredWith(runs[..j], run[..k]), MeasuredWith(runs[..j], run[..k + 1]));
        seen := Appended(seen, run[k]);
      }
      assert run[..|run|] == run;
      RunMeasured(runs, j);
      SameMeasured(seen, MeasuredWith(runs[..j], run), MeasuredWith(runs[..j + 1], []));
    }
    assert runs[..|runs|] == runs;
    RunsMeasured(runs);
    SameMeasured(seen, MeasuredWith(runs, []), benchmark => Measured(runs, benchmark));
    problems := Problems(seen, runs, trend);
  }

  /** The entries to report, of a dictionary of what was measured. */
  method Problems(seen: Map<seq<Counts>>, runs: seq<Run>, trend: Trend) returns (problems: Map<seq<Counts>>)
    requires Holds(seen, benchmark => Measured(runs, benchmark))
    ensures DistinctKeys(problems)
    ensures forall k :: 0 <= k < |problems| ==> problems[k].value == Measured(runs, problems[k].key)
    ensures forall benchmark :: benchmark in Keys(problems) <==> IsInexact(runs, trend, benchmark)
  {
    problems := [];
    for k := 0 to |seen|
      invariant DistinctKeys(problems)
      invariant forall i :: 0 <= i < |problems| ==> problems[i] in seen[..k] && IsInexact(runs, trend, problems[i].key)
      invariant forall i :: 0 <= i < k && IsInexact(runs, trend, seen[i].key) ==> seen[i] in problems
    {
      assert seen[k].value == Measured(runs, seen[k].key) && seen[k].key in Keys(seen);
      if !InTrend(seen[k].key, trend) && Inconsistent(seen[k].value, |runs|) {
        problems := problems + [seen[k]];
      }
    }
    forall benchmark | IsInexact(runs, trend, benchmark) ensures benchmark in Keys(problems) {
      assert benchmark in Keys(seen);
      var k :| 0 <= k < |seen| && seen[k].key == benchmark;
      assert seen[k] in problems;
    }
  }

  lemma {:induction false} SameMeasured(
      seen: Map<seq<Counts>>, measured: string -> seq<Counts>, same: string -> seq<Counts>)
    requires Holds(seen, measured) && forall benchmark :: measured(benchmark) == same(benchmark)
    ensures Holds(seen, same)
  {
  }

  predicate IsInexact(runs: seq<Run>, trend: Trend, benchmark: string) {
    && !InTrend(benchmark, trend)
    && Measured(runs, benchmark) != [] && Inconsistent(Measured(runs, benchmark), |runs|)
  }

  // --- What is reported -------------------------------------------------

  /** A group is what stands before the first dot, or the whole name. */
  lemma {:induction false} GroupEndsAtFirstDot(group: string, rest: string)
    requires '.' !in group
    ensures Group(group) == group && Group(group + "." + rest) == group
  {
    if group != "" {
      assert (group + "." + rest)[1..] == group[1..] + "." + rest;
      GroupEndsAtFirstDot(group[1..], rest);
    }
  }

  /** The rows that name `benchmark`, by run and place. */
  ghost function RowsNaming(runs: seq<Run>, benchmark: string): set<(int, int)> {
    set j, k | 0 <= j < |runs| && 0 <= k < |runs[j]| && runs[j][k].benchmark == benchmark :: (j, k)
  }

  ghost function PlacesNaming(run: Run, j: int, benchmark: string): set<(int, int)> {
    set k | 0 <= k < |run| && run[k].benchmark == benchmark :: (j, k)
  }

  lemma {:induction false} LastPlace(run: Run, j: int, benchmark: string)
    requires run != []
    ensures var n := |run| - 1;
      |PlacesNaming(run, j, benchmark)|
        == |PlacesNaming(run[..n], j, benchmark)| + if run[n].benchmark == benchmark then 1 else 0
  {
    var n := |run| - 1;
    var fewer, one := PlacesNaming(run[..n], j, benchmark), if run[n].benchmark == benchmark then {(j, n)} else {};
    assert PlacesNaming(run, j, benchmark) == fewer + one && fewer !! one;
  }

  lemma {:induction false} CountsArePlaces(run: Run, j: int, benchmark: string)
    ensures |CountsIn(run, benchmark)| == |PlacesNaming(run, j, benchmark)|
  {
    if run != [] {
      hide PlacesNaming;
      LastPlace(run, j, benchmark);
      CountsArePlaces(run[..|run| - 1], j, benchmark);
    } else {
      assert PlacesNaming(run, j, benchmark) == {};
    }
  }

  lemma {:induction false} CountsAreThose(run: Run, benchmark: string, counts: Counts)
    ensures counts in CountsIn(run, benchmark) <==> Row(benchmark, counts) in run
  {
    if run != [] {
      var n := |run| - 1;
      CountsAreThose(run[..n], benchmark, counts);
      assert run == run[..n] + [run[n]];
    }
  }

  lemma {:induction false} LastRunNaming(runs: seq<Run>, benchmark: string)
    requires runs != []
    ensures var n := |runs| - 1;
      |RowsNaming(runs, benchmark)|
        == |RowsNaming(runs[..n], benchmark)| + |PlacesNaming(runs[n], n, benchmark)|
  {
    var n := |runs| - 1;
    var fewer, last := RowsNaming(runs[..n], benchmark), PlacesNaming(runs[n], n, benchmark);
    assert RowsNaming(runs, benchmark) == fewer + last && fewer !! last;
  }

  lemma {:induction false} MeasuredAreRows(runs: seq<Run>, benchmark: string)
    ensures |Measured(runs, benchmark)| == |RowsNaming(runs, benchmark)|
  {
    if runs != [] {
      var n := |runs| - 1;
      hide RowsNaming, PlacesNaming, CountsIn;
      MeasuredAreRows(runs[..n], benchmark);
      CountsArePlaces(runs[n], n, benchmark);
      LastRunNaming(runs, benchmark);
    } else {
      assert RowsNaming(runs, benchmark) == {};
    }
  }

  /** Some run counts this for `benchmark`. */
  ghost predicate IsCounted(runs: seq<Run>, benchmark: string, counts: Counts) {
    exists j :: 0 <= j < |runs| && Row(benchmark, counts) in runs[j]
  }

  lemma {:induction false} MeasuredAreCounted(runs: seq<Run>, benchmark: string, counts: Counts)
    ensures counts in Measured(runs, benchmark) <==> IsCounted(runs, benchmark, counts)
  {
    if runs != [] {
      var n := |runs| - 1;
      hide CountsIn;
      MeasuredAreCounted(runs[..n], benchmark, counts);
      CountsAreThose(runs[n], benchmark, counts);
      assert forall j :: 0 <= j < n ==> runs[..n][j] == runs[j];
      assert IsCounted(runs, benchmark, counts) <==>
        IsCounted(runs[..n], benchmark, counts) || Row(benchmark, counts) in runs[n];
    }
  }

  /** A benchmark is reported exactly when its group is in no trend, some row names it,
      and the rows that do are not as many as the runs or do not all count the same. */
  lemma {:induction false} ReportedIff(runs: seq<Run>, trend: Trend, benchmark: string)
    ensures IsInexact(runs, trend, benchmark) <==>
      && Group(benchmark) !in trend && |RowsNaming(runs, benchmark)| > 0
      && (|RowsNaming(runs, benchmark)| != |runs|
          || exists a, b :: IsCounted(runs, benchmark, a) && IsCounted(runs, benchmark, b) && a != b)
  {
    MeasuredAreRows(runs, benchmark);
    var measured := Measured(runs, benchmark);
    hide Measured, RowsNaming, Group, IsCounted;
    forall counts ensures counts in measured <==> IsCounted(runs, benchmark, counts) {
      MeasuredAreCounted(runs, benchmark, counts);
    }
    if j, k :| 0 <= j < k < |measured| && measured[j] != measured[k] {
      assert IsCounted(runs, benchmark, measured[j]) && IsCounted(runs, benchmark, measured[k]);
    }
    if a, b :| IsCounted(runs, benchmark, a) && IsCounted(runs, benchmark, b) && a != b {
      var m, n :| 0 <= m < |measured| && 0 <= n < |measured| && measured[m] == a && measured[n] == b;
      assert m < n || n < m;
    }
  }

  // --- What no problem means --------------------------------------------

  /** Every run counted `benchmark` once, all alike, or none did. */
  ghost predicate Agree(runs: seq<Run>, benchmark: string) {
    || (forall k :: 0 <= k < |runs| ==> CountsIn(runs[k], benchmark) == [])
    || exists counts :: forall k :: 0 <= k < |runs| ==> CountsIn(runs[k], benchmark) == [counts]
  }

  /** No run names `benchmark` twice. */
  ghost predicate NotRepeated(runs: seq<Run>, benchmark: string) {
    forall k :: 0 <= k < |runs| ==> |CountsIn(runs[k], benchmark)| <= 1
  }

  lemma {:induction false} MeasuredAlike(runs: seq<Run>, benchmark: string, counts: Counts)
    requires forall k :: 0 <= k < |runs| ==> CountsIn(runs[k], benchmark) == [counts]
    ensures |Measured(runs, benchmark)| == |runs|
    ensures forall k :: 0 <= k < |runs| ==> Measured(runs, benchmark)[k] == counts
  {
    if runs != [] {
      MeasuredAlike(runs[..|runs| - 1], benchmark, counts);
    }
  }

  lemma {:induction false} NothingMeasured(runs: seq<Run>, benchmark: string)
    requires forall k :: 0 <= k < |runs| ==> CountsIn(runs[k], benchmark) == []
    ensures Measured(runs, benchmark) == []
  {
    if runs != [] {
      NothingMeasured(runs[..|runs| - 1], benchmark);
    }
  }

  /** Runs that agree on a benchmark raise no problem with it. */
  lemma {:induction false} AgreementIsExact(runs: seq<Run>, trend: Trend, benchmark: string)
    requires Agree(runs, benchmark)
    ensures !IsInexact(runs, trend, benchmark)
  {
    if counts :| forall k :: 0 <= k < |runs| ==> CountsIn(runs[k], benchmark) == [counts] {
      MeasuredAlike(runs, benchmark, counts);
    } else {
      NothingMeasured(runs, benchmark);
    }
  }

  lemma {:induction false} AtMostOnceEach(runs: seq<Run>, benchmark: string)
    requires NotRepeated(runs, benchmark)
    ensures |Measured(runs, benchmark)| <= |runs|
    ensures |Measured(runs, benchmark)| == |runs| ==>
      forall k :: 0 <= k < |runs| ==> CountsIn(runs[k], benchmark) == [Measured(runs, benchmark)[k]]
  {
    hide CountsIn;
    if runs != [] {
      var n := |runs| - 1;
      var before, last := Measured(runs[..n], benchmark), CountsIn(runs[n], benchmark);
      AtMostOnceEach(runs[..n], benchmark);
      if |Measured(runs, benchmark)| == |runs| {
        assert |before| == n && |last| == 1;
        assert last == [last[0]] && Measured(runs, benchmark)[n] == last[0];
        forall k | 0 <= k < n ensures CountsIn(runs[k], benchmark) == [Measured(runs, benchmark)[k]] {
          assert runs[..n][k] == runs[k];
        }
      }
    }
  }

  /** Where no problem is raised with a benchmark, the runs agree on it exactly when
      none of them names it twice. */
  lemma {:induction false} ExactIsAgreementIff(runs: seq<Run>, trend: Trend, benchmark: string)
    requires !InTrend(benchmark, trend) && !IsInexact(runs, trend, benchmark)
    ensures Agree(runs, benchmark) <==> NotRepeated(runs, benchmark)
  {
    if NotRepeated(runs, benchmark) {
      var measured := Measured(runs, benchmark);
      AtMostOnceEach(runs, benchmark);
      if measured == [] {
        NoneCounted(runs, benchmark);
      } else {
        var counts := measured[0];
        assert forall k :: 0 <= k < |runs| ==> measured[k] == counts;
        assert forall k :: 0 <= k < |runs| ==> CountsIn(runs[k], benchmark) == [counts];
      }
    }
  }

  lemma {:induction false} NoneCounted(runs: seq<Run>, benchmark: string)
    requires Measured(runs, benchmark) == []
    ensures forall k :: 0 <= k < |runs| ==> CountsIn(runs[k], benchmark) == []
  {
    if runs != [] {
      NoneCounted(runs[..|runs| - 1], benchmark);
    }
  }

  /** A run that names a benchmark twice hides one that lacks it. */
  lemma {:induction false} RepetitionHidesMissing(row: Row, trend: Trend)
    ensures !IsInexact([[row, row], []], trend, row.benchmark) && !Agree([[row, row], []], row.benchmark)
  {
    var twice: Run := [row, row];
    var runs: seq<Run> := [twice, []];
    assert twice[..1] == [row] && [row][..0] == [] && runs[..1] == [twice] && [twice][..0] == [];
    assert CountsIn([row], row.benchmark) == [row.counts];
    assert CountsIn(twice, row.benchmark) == [row.counts, row.counts];
    assert Measured([twice], row.benchmark) == [row.counts, row.counts];
    assert Measured(runs, row.benchmark) == [row.counts, row.counts];
    assert CountsIn(runs[0], row.benchmark) != [] && |CountsIn(runs[0], row.benchmark)| == 2;
  }
}
