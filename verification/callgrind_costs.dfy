/** The Callgrind reader of scripts/profile_report.py: instructions in the program
    and outside it, from lines whose object names are compressed. */
module CallgrindCosts {
  import opened Options

  /** What the reader tells lines apart as. `Object` is an `ob=` line, or a `cob=`
      line where `called`; `Cost` is a line of positions and costs, without its first
      cost where it has fewer than two fields. */
  datatype Line =
    | Events(fields: seq<string>)
    | Positions(fields: seq<string>)
    | Object(called: bool, index: Option<string>, name: string)
    | Calls
    | Cost(cost: Option<int>)
    | Other

  datatype Reading = Counted(program: int, other: int) | Unreadable

  // --- The reader -------------------------------------------------------

  /** One object's entry in the dictionary of counts; the dictionary keeps the order
      its keys came in. */
  datatype Count = Count(owner: Option<string>, cost: int)

  function Added(counts: seq<Count>, owner: Option<string>, cost: int): seq<Count> {
    if counts == [] then [Count(owner, cost)]
    else if counts[0].owner == owner then [Count(owner, counts[0].cost + cost)] + counts[1..]
    else [counts[0]] + Added(counts[1..], owner, cost)
  }

  function SumOf(counts: seq<Count>, keep: Option<string> -> bool): int {
    if counts == [] then 0 else (if keep(counts[0].owner) then counts[0].cost else 0) + SumOf(counts[1..], keep)
  }

  datatype State = State(
    names: map<string, string>,
    current: Option<string>,
    events: Option<seq<string>>,
    positions: Option<seq<string>>,
    counts: seq<Count>,
    afterCall: bool)

  const START: State := State(map[], None, None, None, [], false)

  function Defined(names: map<string, string>, index: Option<string>, name: string): map<string, string> {
    if index.Some? && name != "" then names[index.value := name] else names
  }

  function Resolved(names: map<string, string>, index: Option<string>, name: string): string {
    if index.Some? && index.value in names then names[index.value] else name
  }

  function Step(state: State, line: Line): State {
    match line
    case Events(fields) => state.(events := Some(fields))
    case Positions(fields) => state.(positions := Some(fields))
    case Object(called, index, name) =>
      var names := Defined(state.names, index, name);
      state.(names := names, current := if called then state.current else Some(Resolved(names, index, name)))
    case Calls => state.(afterCall := true)
    case Cost(cost) =>
      if state.afterCall then state.(afterCall := false)
      else if cost.Some? then state.(counts := Added(state.counts, state.current, cost.value))
      else state
    case Other => state
  }

  function Run(lines: seq<Line>): State {
    if lines == [] then START else Step(Run(lines[..|lines| - 1]), lines[|lines| - 1])
  }

  function Program(program: string): Option<string> -> bool {
    owner => owner == Some(program)
  }

  function Others(program: string): Option<string> -> bool {
    owner => owner != Some(program)
  }

  function Everything(): Option<string> -> bool {
    owner => true
  }

  function ReadingOf(state: State, program: string): Reading {
    if state.events.None? || state.events.value == [] || state.events.value[0] != "Ir" then Unreadable
    else if state.positions.Some? && state.positions.value != ["line"] then Unreadable
    else Counted(
      SumOf(state.counts, Program(program)),
      SumOf(state.counts, Others(program)))
  }

  /** `split_by_object`. */
  method SplitByObject(lines: seq<Line>, program: string) returns (reading: Reading)
    ensures reading == ReadingOf(Run(lines), program)
  {
    var names: map<string, string> := map[];
    var current: Option<string> := None;
    var events, positions: Option<seq<string>> := None, None;
    var counts: seq<Count> := [];
    var afterCall := false;
    for k := 0 to |lines|
      invariant Run(lines[..k]) == State(names, current, events, positions, counts, afterCall)
    {
      assert lines[..k + 1][..k] == lines[..k];
      match lines[k] {
        case Events(fields) =>
          events := Some(fields);
        case Positions(fields) =>
          positions := Some(fields);
        case Object(called, index, name) =>
          if index.Some? && name != "" {
            names := names[index.value := name];
          }
          var resolved := if index.Some? && index.value in names then names[index.value] else name;
          if !called {
            current := Some(resolved);
          }
        case Calls =>
          afterCall := true;
        case Cost(cost) =>
          if afterCall {
            afterCall := false;
            continue;
          }
          if cost.Some? {
            counts := Added(counts, current, cost.value);
          }
        case Other =>
      }
    }
    assert lines[..|lines|] == lines;
    if events.None? || events.value == [] || events.value[0] != "Ir" {
      return Unreadable;
    }
    if positions != None && positions != Some(["line"]) {
      return Unreadable;
    }
    reading := Counted(
      SumOf(counts, Program(program)),
      SumOf(counts, Others(program)));
  }

  // --- What the lines say -----------------------------------------------

  /** The name last given to `index` before line `k`. */
  function NameBefore(lines: seq<Line>, k: nat, index: string): Option<string>
    requires k <= |lines|
  {
    if k == 0 then None
    else if lines[k - 1].Object? && lines[k - 1].index == Some(index) && lines[k - 1].name != "" then
      Some(lines[k - 1].name)
    else NameBefore(lines, k - 1, index)
  }

  /** What line `k` names: its own name if it spells one, else the one its index was
      last given. */
  function NameAt(lines: seq<Line>, k: nat): string
    requires k < |lines| && lines[k].Object?
  {
    var line := lines[k];
    if line.name != "" || line.index.None? then line.name
    else match NameBefore(lines, k, line.index.value)
      case None => ""
      case Some(name) => name
  }

  /** The object line `k` belongs to: what the `ob=` line last before it names. */
  function OwnerAt(lines: seq<Line>, k: nat): Option<string>
    requires k <= |lines|
  {
    if k == 0 then None
    else if lines[k - 1].Object? && !lines[k - 1].called then Some(NameAt(lines, k - 1))
    else OwnerAt(lines, k - 1)
  }

  /** No line of costs between the `calls=` line `j` and line `k`. */
  predicate Pays(lines: seq<Line>, j: nat, k: nat)
    requires k <= |lines|
  {
    j < k && lines[j].Calls? && forall i :: j < i < k ==> !lines[i].Cost?
  }

  /** Whether line `k`, if of costs, would hold the cost of a call. */
  predicate CallPending(lines: seq<Line>, k: nat)
    requires k <= |lines|
  {
    exists j: nat :: j < k && Pays(lines, j, k)
  }

  predicate SelfCost(lines: seq<Line>, k: nat)
    requires k < |lines|
  {
    lines[k].Cost? && lines[k].cost.Some? && !CallPending(lines, k)
  }

  /** The sum of the self costs of the objects `keep` holds of, in the lines before
      line `n`. */
  function SelfCosts(lines: seq<Line>, n: nat, keep: Option<string> -> bool): int
    requires n <= |lines|
  {
    if n == 0 then 0
    else
      var cost := if SelfCost(lines, n - 1) && keep(OwnerAt(lines, n - 1)) then lines[n - 1].cost.value else 0;
      SelfCosts(lines, n - 1, keep) + cost
  }

  lemma {:induction false} AddedSums(counts: seq<Count>, owner: Option<string>, cost: int, keep: Option<string> -> bool)
    ensures SumOf(Added(counts, owner, cost), keep) == SumOf(counts, keep) + (if keep(owner) then cost else 0)
  {
    if counts != [] && counts[0].owner != owner {
      AddedSums(counts[1..], owner, cost, keep);
    }
  }

  /** The reader's state says what the lines do. */
  ghost predicate Describes(state: State, lines: seq<Line>, n: nat)
    requires n <= |lines|
  {
    && (forall index :: NameBefore(lines, n, index) == if index in state.names then Some(state.names[index]) else None)
    && state.current == OwnerAt(lines, n)
    && state.afterCall == CallPending(lines, n)
    && forall keep :: SumOf(state.counts, keep) == SelfCosts(lines, n, keep)
  }

  lemma {:induction false} PendingSteps(lines: seq<Line>, k: nat)
    requires k < |lines|
    ensures CallPending(lines, k + 1) <==> lines[k].Calls? || (CallPending(lines, k) && !lines[k].Cost?)
  {
    if lines[k].Calls? {
      assert Pays(lines, k, k + 1);
    } else if CallPending(lines, k) && !lines[k].Cost? {
      var j: nat :| j < k && Pays(lines, j, k);
      assert Pays(lines, j, k + 1);
    } else {
      var next := k + 1;
      forall j: nat | j < next ensures !Pays(lines, j, next) {
        assert j < k ==> !Pays(lines, j, k) || lines[k].Cost?;
      }
    }
  }

  lemma {:induction false} StepDescribes(state: State, lines: seq<Line>, k: nat)
    requires k < |lines| && Describes(state, lines, k)
    ensures Describes(Step(state, lines[k]), lines, k + 1)
  {
    PendingSteps(lines, k);
    var next := Step(state, lines[k]);
    forall keep ensures SumOf(next.counts, keep) == SelfCosts(lines, k + 1, keep) {
      if SelfCost(lines, k) {
        AddedSums(state.counts, state.current, lines[k].cost.value, keep);
      }
    }
  }

  lemma {:induction false} RunDescribes(lines: seq<Line>, n: nat)
    requires n <= |lines|
    ensures Describes(Run(lines[..n]), lines, n)
  {
    if n > 0 {
      RunDescribes(lines, n - 1);
      StepDescribes(Run(lines[..n - 1]), lines, n - 1);
      assert lines[..n][..n - 1] == lines[..n - 1];
    }
  }

  lemma {:induction false} ProgramOrNot(lines: seq<Line>, n: nat, program: string)
    requires n <= |lines|
    ensures SelfCosts(lines, n, Program(program)) + SelfCosts(lines, n, Others(program))
      == SelfCosts(lines, n, Everything())
  {
    if n > 0 {
      ProgramOrNot(lines, n - 1, program);
    }
  }

  lemma {:induction false} SameOwnersSameCosts(
      lines: seq<Line>, n: nat, keep: Option<string> -> bool, same: Option<string> -> bool)
    requires n <= |lines| && forall owner :: keep(owner) == same(owner)
    ensures SelfCosts(lines, n, keep) == SelfCosts(lines, n, same)
  {
    if n > 0 {
      SameOwnersSameCosts(lines, n - 1, keep, same);
    }
  }

  /** Conservation: the program's count is the self costs its object owns, the other
      count those of every other owner, and the two together are every self cost
      there is. */
  lemma {:induction false} TotalsAreSelfCosts(
      lines: seq<Line>, program: string, own: Option<string> -> bool, others: Option<string> -> bool,
      all: Option<string> -> bool)
    requires ReadingOf(Run(lines), program).Counted?
    requires forall owner :: own(owner) <==> owner == Some(program)
    requires forall owner :: others(owner) <==> owner != Some(program)
    requires forall owner :: all(owner)
    ensures var reading := ReadingOf(Run(lines), program);
      && reading.program == SelfCosts(lines, |lines|, own)
      && reading.other == SelfCosts(lines, |lines|, others)
      && reading.program + reading.other == SelfCosts(lines, |lines|, all)
  {
    RunDescribes(lines, |lines|);
    assert lines[..|lines|] == lines;
    ProgramOrNot(lines, |lines|, program);
    SameOwnersSameCosts(lines, |lines|, own, Program(program));
    SameOwnersSameCosts(lines, |lines|, others, Others(program));
    SameOwnersSameCosts(lines, |lines|, all, Everything());
  }

  // --- Which files are refused ------------------------------------------

  /** The last of the first `n` lines to state the events, or the positions. */
  ghost predicate IsLastEvents(lines: seq<Line>, n: nat, k: nat)
    requires n <= |lines|
  {
    k < n && lines[k].Events? && forall j :: k < j < n ==> !lines[j].Events?
  }

  ghost predicate IsLastPositions(lines: seq<Line>, n: nat, k: nat)
    requires n <= |lines|
  {
    k < n && lines[k].Positions? && forall j :: k < j < n ==> !lines[j].Positions?
  }

  ghost predicate HeadersAre(state: State, lines: seq<Line>, n: nat)
    requires n <= |lines|
  {
    && (forall k: nat :: IsLastEvents(lines, n, k) ==> state.events == Some(lines[k].fields))
    && (state.events.Some? ==> exists k: nat :: IsLastEvents(lines, n, k))
    && (forall k: nat :: IsLastPositions(lines, n, k) ==> state.positions == Some(lines[k].fields))
    && (state.positions.Some? ==> exists k: nat :: IsLastPositions(lines, n, k))
  }

  lemma {:induction false} HeadersAreLast(lines: seq<Line>, n: nat)
    requires n <= |lines|
    ensures HeadersAre(Run(lines[..n]), lines, n)
  {
    if n > 0 {
      HeadersAreLast(lines, n - 1);
      assert lines[..n][..n - 1] == lines[..n - 1];
      HeaderSteps(Run(lines[..n - 1]), lines, n - 1);
    }
  }

  lemma {:induction false} HeaderSteps(state: State, lines: seq<Line>, n: nat)
    requires n < |lines| && HeadersAre(state, lines, n)
    ensures HeadersAre(Step(state, lines[n]), lines, n + 1)
  {
    if lines[n].Events? {
      assert IsLastEvents(lines, n + 1, n);
    } else if state.events.Some? {
      var k: nat :| IsLastEvents(lines, n, k);
      assert IsLastEvents(lines, n + 1, k);
    }
    if lines[n].Positions? {
      assert IsLastPositions(lines, n + 1, n);
    } else if state.positions.Some? {
      var k: nat :| IsLastPositions(lines, n, k);
      assert IsLastPositions(lines, n + 1, k);
    }
    forall k: nat | IsLastEvents(lines, n + 1, k) && k != n ensures IsLastEvents(lines, n, k) {}
    forall k: nat | IsLastPositions(lines, n + 1, k) && k != n ensures IsLastPositions(lines, n, k) {}
  }

  /** A file is read exactly when the last line to state its events states `Ir` first,
      and the last to state its positions, if one does, states `line` alone. */
  lemma {:induction false} ReadIffHeaders(lines: seq<Line>, program: string)
    ensures ReadingOf(Run(lines), program).Counted? <==>
      && (exists k: nat ::
            IsLastEvents(lines, |lines|, k) && |lines[k].fields| > 0 && lines[k].fields[0] == "Ir")
      && (forall k: nat :: IsLastPositions(lines, |lines|, k) ==> lines[k].fields == ["line"])
  {
    HeadersAreLast(lines, |lines|);
    assert lines[..|lines|] == lines;
    hide IsLastEvents, IsLastPositions, Run;
    OnlyOneIsLast(lines, |lines|);
  }

  lemma {:induction false} OnlyOneIsLast(lines: seq<Line>, n: nat)
    requires n <= |lines|
    ensures forall j: nat, k: nat :: IsLastEvents(lines, n, j) && IsLastEvents(lines, n, k) ==> j == k
    ensures forall k: nat :: IsLastEvents(lines, n, k) ==> k < n && lines[k].Events?
    ensures forall k: nat :: IsLastPositions(lines, n, k) ==> k < n && lines[k].Positions?
  {
  }

  // --- Compression ------------------------------------------------------

  /** The lines with every name spelled out and no index. */
  function Expanded(lines: seq<Line>): (expanded: seq<Line>)
    ensures |expanded| == |lines|
  {
    seq(|lines|, k requires 0 <= k < |lines| =>
      if lines[k].Object? then Object(lines[k].called, None, NameAt(lines, k)) else lines[k])
  }

  lemma {:induction false} NamesAreKept(lines: seq<Line>, n: nat)
    requires n <= |lines|
    ensures OwnerAt(Expanded(lines), n) == OwnerAt(lines, n)
  {
    if n > 0 {
      NamesAreKept(lines, n - 1);
    }
  }

  lemma {:induction false} HeadersStep(state: State, same: State, line: Line, expanded: Line)
    requires state.events == same.events && state.positions == same.positions
    requires line == expanded || (line.Object? && expanded.Object?)
    ensures Step(state, line).events == Step(same, expanded).events
    ensures Step(state, line).positions == Step(same, expanded).positions
  {
  }

  lemma {:induction false} HeadersAreKept(lines: seq<Line>, n: nat)
    requires n <= |lines|
    ensures Run(Expanded(lines)[..n]).events == Run(lines[..n]).events
    ensures Run(Expanded(lines)[..n]).positions == Run(lines[..n]).positions
  {
    if n > 0 {
      hide Step, NameAt;
      HeadersAreKept(lines, n - 1);
      assert lines[..n][..n - 1] == lines[..n - 1] && Expanded(lines)[..n][..n - 1] == Expanded(lines)[..n - 1];
      HeadersStep(Run(lines[..n - 1]), Run(Expanded(lines)[..n - 1]), lines[n - 1], Expanded(lines)[n - 1]);
    }
  }

  lemma {:induction false} CostsAreKept(lines: seq<Line>, n: nat, keep: Option<string> -> bool)
    requires n <= |lines|
    ensures SelfCosts(Expanded(lines), n, keep) == SelfCosts(lines, n, keep)
  {
    if n > 0 {
      CostsAreKept(lines, n - 1, keep);
      NamesAreKept(lines, n - 1);
      PendingIsKept(lines, n - 1);
    }
  }

  lemma {:induction false} PendingIsKept(lines: seq<Line>, k: nat)
    requires k <= |lines|
    ensures CallPending(Expanded(lines), k) == CallPending(lines, k)
  {
    forall j: nat | j < k ensures Pays(Expanded(lines), j, k) == Pays(lines, j, k) {
      assert forall i :: 0 <= i < |lines| ==> Expanded(lines)[i].Cost? == lines[i].Cost?;
    }
  }

  /** Compressing names changes nothing: the same lines with every name spelled out
      are read alike. */
  lemma {:induction false} CompressionIsInvisible(lines: seq<Line>, program: string)
    ensures ReadingOf(Run(Expanded(lines)), program) == ReadingOf(Run(lines), program)
  {
    var expanded := Expanded(lines);
    assert lines[..|lines|] == lines && expanded[..|lines|] == expanded;
    RunDescribes(lines, |lines|);
    RunDescribes(expanded, |lines|);
    HeadersAreKept(lines, |lines|);
    CostsAreKept(lines, |lines|, Program(program));
    CostsAreKept(lines, |lines|, Others(program));
  }

  // --- Calls ------------------------------------------------------------

  lemma {:induction false} RunsOn(first: seq<Line>, a: seq<Line>, b: seq<Line>)
    requires Run(a) == Run(b)
    ensures Run(a + first) == Run(b + first)
  {
    if first == [] {
      assert a + first == a && b + first == b;
    } else {
      RunsOn(first[..|first| - 1], a, b);
      assert (a + first)[..|a + first| - 1] == a + first[..|first| - 1];
      assert (b + first)[..|b + first| - 1] == b + first[..|first| - 1];
    }
  }

  /** A call and its inclusive cost, wherever no other call is pending, count for
      nothing, whatever the cost. */
  lemma {:induction false} CallsCountNothing(first: seq<Line>, cost: Option<int>, rest: seq<Line>, program: string)
    requires !CallPending(first, |first|)
    ensures ReadingOf(Run(first + [Calls, Cost(cost)] + rest), program) == ReadingOf(Run(first + rest), program)
  {
    RunDescribes(first, |first|);
    assert first[..|first|] == first;
    var call := first + [Calls];
    var paid := first + [Calls, Cost(cost)];
    assert call[..|first|] == first && paid[..|call|] == call;
    RunsOn(rest, paid, first);
  }
}
