/** Test modules as they are written: a head and a block of nested braces. Cutting the
    modules scripts/containment.py finds leaves exactly what is written beside them. */
module TestBlocks {
  import opened Sequences
  import opened RustScanner
  import opened TestModules

  // --- Blocks -----------------------------------------------------------

  datatype Part = Plain(c: char) | Block(parts: seq<Part>)

  function Print(part: Part): string {
    match part
    case Plain(c) => [c]
    case Block(parts) => "{" + PrintAll(parts) + "}"
  }

  function PrintAll(parts: seq<Part>): string {
    if parts == [] then "" else Print(parts[0]) + PrintAll(parts[1..])
  }

  /** No character that stands for itself is a brace. */
  predicate IsBalanced(part: Part) {
    match part
    case Plain(c) => c != '{' && c != '}'
    case Block(parts) => AreBalanced(parts)
  }

  predicate AreBalanced(parts: seq<Part>) {
    forall k :: 0 <= k < |parts| ==> IsBalanced(parts[k])
  }

  // --- How deep a text is -----------------------------------------------

  lemma {:induction false} DepthConcat(a: string, b: string)
    ensures Depth(a + b) == Depth(a) + Depth(b)
  {
    if b == "" {
      assert a + b == a;
    } else {
      DepthConcat(a, b[..|b| - 1]);
      InitOfConcat(a, b);
    }
  }

  /** No prefix of the text closes more than it opens. */
  ghost predicate NeverBelow(text: string, least: int) {
    forall m :: 0 <= m <= |text| ==> Depth(text[..m]) >= least
  }

  lemma {:induction false} NeverBelowConcat(a: string, b: string)
    requires NeverBelow(a, 0) && NeverBelow(b, 0) && Depth(a) >= 0
    ensures NeverBelow(a + b, 0)
  {
    forall m | 0 <= m <= |a + b| ensures Depth((a + b)[..m]) >= 0 {
      if m <= |a| {
        assert (a + b)[..m] == a[..m];
      } else {
        assert (a + b)[..m] == a + b[..m - |a|];
        DepthConcat(a, b[..m - |a|]);
      }
    }
  }

  lemma {:induction false} OneDeep(c: char)
    ensures Depth([c]) == if c == '{' then 1 else if c == '}' then -1 else 0
  {
    assert [c][..0] == "" && Depth("") == 0;
  }

  lemma {:induction false} PartIsLevel(part: Part)
    requires IsBalanced(part)
    ensures Depth(Print(part)) == 0 && NeverBelow(Print(part), 0)
    decreases part, 1
  {
    match part
    case Plain(c) =>
      OneDeep(c);
      assert forall m :: 0 <= m <= 1 ==> [c][..m] == if m == 0 then "" else [c];
    case Block(parts) =>
      PartsAreLevel(parts);
      BlockIsOpen(parts);
      var inner, block := "{" + PrintAll(parts), Print(part);
      DepthConcat(inner, "}");
      OneDeep('}');
      forall m | 0 <= m <= |block| ensures Depth(block[..m]) >= 0 {
        assert block[..m] == if m <= |inner| then inner[..m] else block;
      }
  }

  lemma {:induction false} PartsAreLevel(parts: seq<Part>)
    requires AreBalanced(parts)
    ensures Depth(PrintAll(parts)) == 0 && NeverBelow(PrintAll(parts), 0)
    decreases parts, 0
  {
    if parts != [] {
      PartIsLevel(parts[0]);
      PartsAreLevel(parts[1..]);
      DepthConcat(Print(parts[0]), PrintAll(parts[1..]));
      NeverBelowConcat(Print(parts[0]), PrintAll(parts[1..]));
    }
  }

  /** Behind its opening brace a block stays open up to its own closing one. */
  lemma {:induction false} BlockIsOpen(parts: seq<Part>)
    requires AreBalanced(parts) && Depth(PrintAll(parts)) == 0 && NeverBelow(PrintAll(parts), 0)
    ensures var inner := "{" + PrintAll(parts);
      Depth(inner) == 1 && forall m :: 0 <= m <= |inner| ==> Depth(inner[..m]) >= if m == 0 then 0 else 1
  {
    var body := PrintAll(parts);
    var inner := "{" + body;
    OneDeep('{');
    DepthConcat("{", body);
    forall m | 0 < m <= |inner| ensures Depth(inner[..m]) >= 1 {
      assert inner[..m] == "{" + body[..m - 1];
      DepthConcat("{", body[..m - 1]);
    }
  }

  /** A block ends at its own closing brace, whatever follows. */
  lemma {:induction false} BlockEndsAtItsClose(text: string, from: nat, parts: seq<Part>, end: nat)
    requires AreBalanced(parts) && Holds(text, from, Print(Block(parts)))
    ensures ClosesBlock(text, from, end) <==> end == from + |Print(Block(parts))|
  {
    var inner, block := "{" + PrintAll(parts), Print(Block(parts));
    var close := from + |block|;
    PartsAreLevel(parts);
    BlockIsOpen(parts);
    PartIsLevel(Block(parts));
    assert text[from..close] == block;
    forall m | from < m < close ensures Depth(text[from..m]) != 0 {
      assert text[from..m] == block[..m - from];
      assert block == inner + "}" && block[..m - from] == inner[..m - from];
    }
    assert Depth(text[from..close]) == 0;
    hide Depth;
    assert from < end < close ==> Depth(text[from..end]) != 0;
  }

  /** A block that is never closed takes the rest of the text: every `{` behind the
      first, with what is balanced behind it, only opens another. */
  function PrintOpen(levels: seq<seq<Part>>): string {
    if levels == [] then "" else "{" + PrintAll(levels[0]) + PrintOpen(levels[1..])
  }

  lemma {:induction false} OpenIsDeep(levels: seq<seq<Part>>)
    requires forall k :: 0 <= k < |levels| ==> AreBalanced(levels[k])
    ensures var text := PrintOpen(levels);
      Depth(text) == |levels| && forall m :: 0 < m <= |text| ==> Depth(text[..m]) >= 1
  {
    if levels != [] {
      var inner, more := "{" + PrintAll(levels[0]), PrintOpen(levels[1..]);
      PartsAreLevel(levels[0]);
      BlockIsOpen(levels[0]);
      OpenIsDeep(levels[1..]);
      DepthConcat(inner, more);
      var text := inner + more;
      forall m | 0 < m <= |text| ensures Depth(text[..m]) >= 1 {
        if m <= |inner| {
          assert text[..m] == inner[..m];
        } else {
          assert text[..m] == inner + more[..m - |inner|];
          DepthConcat(inner, more[..m - |inner|]);
        }
      }
    }
  }

  lemma {:induction false} UnclosedBlockTakesAll(text: string, from: nat, levels: seq<seq<Part>>, end: nat)
    requires levels != [] && forall k :: 0 <= k < |levels| ==> AreBalanced(levels[k])
    requires from <= |text| && text[from..] == PrintOpen(levels)
    ensures ClosesBlock(text, from, end) <==> end == |text|
  {
    OpenIsDeep(levels);
    forall m | from < m <= |text| ensures Depth(text[from..m]) != 0 {
      assert text[from..m] == text[from..][..m - from];
    }
  }

  // --- Sources ----------------------------------------------------------

  /** A stretch of a source: what is no test module, a module with its block, or one
      declared for a file of its own. */
  datatype Stretch =
    | Rest(text: string)
    | Inline(head: string, parts: seq<Part>)
    | Declared(head: string)

  function Written(stretch: Stretch): string {
    match stretch
    case Rest(text) => text
    case Inline(head, parts) => head + Print(Block(parts))
    case Declared(head) => head + ";"
  }

  function Source(stretches: seq<Stretch>): string {
    if stretches == [] then "" else Written(stretches[0]) + Source(stretches[1..])
  }

  /** `found` is what `TEST_MODULE` matches of a source so written, from `at` on: every
      head, nothing that starts in the rest, and anything within a module. */
  ghost predicate IsFound(found: seq<Span>, stretches: seq<Stretch>, at: nat) {
    stretches == [] || (
      var stretch, next := stretches[0], at + |Written(stretches[0])|;
      && (match stretch
          case Rest(_) => forall i :: 0 <= i < |found| ==> !(at <= found[i].start < next)
          case Inline(head, parts) => AreBalanced(parts) && Span(at, at + |head|) in found
          case Declared(head) => Span(at, at + |head|) in found)
      && IsFound(found, stretches[1..], next))
  }

  /** What is left of a text as long as the source, which may show other characters. */
  function Left(text: string, stretches: seq<Stretch>, at: nat): string
    requires at + |Source(stretches)| == |text|
  {
    if stretches == [] then ""
    else
      var next := at + |Written(stretches[0])|;
      (if stretches[0].Rest? then text[at..next] else "") + Left(text, stretches[1..], next)
  }

  /** The rest alone. */
  function RestOf(stretches: seq<Stretch>): string {
    if stretches == [] then ""
    else (if stretches[0].Rest? then stretches[0].text else "") + RestOf(stretches[1..])
  }

  lemma {:induction false} LeftIsRest(stretches: seq<Stretch>, text: string, at: nat)
    requires at + |Source(stretches)| == |text| && text[at..] == Source(stretches)
    ensures Left(text, stretches, at) == RestOf(stretches)
    decreases |stretches|
  {
    if stretches != [] {
      var written, more := Written(stretches[0]), Source(stretches[1..]);
      var next := at + |written|;
      assert text[at..next] == (written + more)[..|written|] == written;
      assert text[next..] == (written + more)[|written|..] == more;
      LeftIsRest(stretches[1..], text, next);
    }
  }

  // --- The cut ----------------------------------------------------------

  /** The spans that start before `at` end there, too. */
  ghost predicate AreBefore(spans: seq<Span>, at: nat) {
    forall k :: 0 <= k < |spans| && spans[k].start < at ==> spans[k].end <= at
  }

  lemma {:induction false} RestIsKept(
      masked: string, found: seq<Span>, spans: seq<Span>, at: nat, next: nat)
    requires Disjoint(found, |masked|) && AreModules(masked, found, spans) && AreBefore(spans, at) && at <= next
    requires forall i :: 0 <= i < |found| ==> !(at <= found[i].start < next)
    ensures AreBefore(spans, next) && forall i :: at <= i < next ==> !Covered(spans, i)
  {
    forall k | 0 <= k < |spans| && spans[k].start < next ensures spans[k].end <= at {
      var i :| 0 <= i < |found| && Spans(masked, found[i], spans[k]);
      assert spans[k].start == found[i].start;
    }
  }

  lemma {:induction false} MatchOf(masked: string, found: seq<Span>, spans: seq<Span>, k: nat) returns (j: nat)
    requires Disjoint(found, |masked|) && AreModules(masked, found, spans) && k < |spans|
    ensures j < |found| && Spans(masked, found[j], spans[k]) && spans[k].start == found[j].start
  {
    j :| 0 <= j < |found| && Spans(masked, found[j], spans[k]);
  }

  lemma {:induction false} OneMatchAStart(found: seq<Span>, length: nat, i: nat, j: nat)
    requires Disjoint(found, length) && i < |found| && j < |found| && found[i].start == found[j].start
    ensures i == j
  {
    assert found[i].start < found[i].end && found[j].start < found[j].end;
  }

  lemma {:induction false} CoverOf(masked: string, found: seq<Span>, spans: seq<Span>, i: nat) returns (k: nat)
    requires Disjoint(found, |masked|) && AreModules(masked, found, spans) && i < |found|
    ensures k < |spans| && spans[k].start <= found[i].start < spans[k].end
  {
    assert Covered(spans, found[i].start);
    k :| 0 <= k < |spans| && spans[k].start <= found[i].start < spans[k].end;
  }

  /** The module a head starts at is one of the spans. */
  lemma {:induction false} HeadIsSpan(
      masked: string, found: seq<Span>, spans: seq<Span>, head: Span, next: nat)
    requires Disjoint(found, |masked|) && AreModules(masked, found, spans) && AreBefore(spans, head.start)
    requires head in found && head.start < next && head.end <= |masked|
    requires forall span :: Spans(masked, head, span) ==> span.end == next
    ensures Span(head.start, next) in spans
  {
    hide Spans, AreModules, Disjoint;
    var i :| 0 <= i < |found| && found[i] == head;
    var k := CoverOf(masked, found, spans, i);
    var j := MatchOf(masked, found, spans, k);
    OneMatchAStart(found, |masked|, i, j);
    assert spans[k] == Span(head.start, next);
  }

  lemma {:induction false} SpanIsCut(spans: seq<Span>, length: nat, span: Span)
    requires Disjoint(spans, length) && span in spans && AreBefore(spans, span.start)
    ensures AreBefore(spans, span.end) && forall i :: span.start <= i < span.end ==> Covered(spans, i)
  {
    var k :| 0 <= k < |spans| && spans[k] == span;
    assert forall j :: k < j < |spans| ==> spans[j].start >= span.end;
    assert forall j :: 0 <= j < k ==> spans[j].end <= span.start;
    forall i | span.start <= i < span.end ensures Covered(spans, i) {
      assert spans[k].start <= i < spans[k].end;
    }
  }

  lemma {:induction false} OutsideKept(text: string, spans: seq<Span>, at: nat, next: nat)
    requires at <= next <= |text| && forall i :: at <= i < next ==> !Covered(spans, i)
    ensures Outside(text, spans, at) == text[at..next] + Outside(text, spans, next)
    decreases next - at
  {
    if at < next {
      hide Covered;
      OutsideKept(text, spans, at + 1, next);
      assert text[at..next] == [text[at]] + text[at + 1..next];
      Associative([text[at]], text[at + 1..next], Outside(text, spans, next));
    }
  }

  lemma {:induction false} OutsideCut(text: string, spans: seq<Span>, at: nat, next: nat)
    requires at <= next <= |text| && forall i :: at <= i < next ==> Covered(spans, i)
    ensures Outside(text, spans, at) == Outside(text, spans, next)
    decreases next - at
  {
    if at < next {
      hide Covered;
      OutsideCut(text, spans, at + 1, next);
    }
  }

  /** What a head spans: to its block's own brace, or to its semicolon. */
  lemma {:induction false} HeadSpans(masked: string, at: nat, stretch: Stretch, span: Span)
    requires Holds(masked, at, Written(stretch)) && !stretch.Rest? && stretch.head != ""
    requires stretch.Inline? ==> AreBalanced(stretch.parts)
    requires Spans(masked, Span(at, at + |stretch.head|), span)
    ensures span.end == at + |Written(stretch)|
  {
    var after := at + |stretch.head|;
    match stretch
    case Inline(head, parts) =>
      HoldsParts(masked, at, head, Print(Block(parts)));
      assert masked[after..after + |Print(Block(parts))|][0] == '{';
      BlockEndsAtItsClose(masked, after, parts, span.end);
    case Declared(head) =>
      HoldsParts(masked, at, head, ";");
      assert masked[after..after + 1][0] == ';';
  }

  lemma {:induction false} StretchIsCut(
      masked: string, found: seq<Span>, spans: seq<Span>, text: string, stretches: seq<Stretch>, at: nat)
    requires Disjoint(found, |masked|) && AreModules(masked, found, spans) && |text| == |masked|
    requires stretches != [] && Holds(masked, at, Written(stretches[0]))
    requires IsFound(found, stretches, at) && AreBefore(spans, at)
    ensures var next := at + |Written(stretches[0])|;
      && AreBefore(spans, next)
      && Outside(text, spans, at) ==
           (if stretches[0].Rest? then text[at..next] else "") + Outside(text, spans, next)
  {
    var next := at + |Written(stretches[0])|;
    hide Outside, AreModules, Disjoint, Written, Covered, AreBefore;
    if stretches[0].Rest? {
      RestIsKept(masked, found, spans, at, next);
      OutsideKept(text, spans, at, next);
    } else {
      ModuleIsCut(masked, found, spans, stretches[0], at);
      OutsideCut(text, spans, at, next);
    }
  }

  lemma {:induction false} SourceStep(masked: string, stretches: seq<Stretch>, at: nat)
    requires stretches != [] && at + |Source(stretches)| == |masked| && masked[at..] == Source(stretches)
    ensures var next := at + |Written(stretches[0])|;
      && Holds(masked, at, Written(stretches[0]))
      && next + |Source(stretches[1..])| == |masked| && masked[next..] == Source(stretches[1..])
  {
    var written, more := Written(stretches[0]), Source(stretches[1..]);
    var next := at + |written|;
    assert masked[at..next] == (written + more)[..|written|] == written;
    assert masked[next..] == (written + more)[|written|..] == more;
  }

  /** The spans found cut exactly the modules written. */
  lemma {:induction false} ModulesAreCut(
      masked: string, found: seq<Span>, spans: seq<Span>, text: string, stretches: seq<Stretch>, at: nat)
    requires Disjoint(found, |masked|) && AreModules(masked, found, spans) && |text| == |masked|
    requires at + |Source(stretches)| == |masked| && masked[at..] == Source(stretches)
    requires IsFound(found, stretches, at) && AreBefore(spans, at)
    ensures Outside(text, spans, at) == Left(text, stretches, at)
    decreases |stretches|
  {
    if stretches != [] {
      hide AreModules, Disjoint, Written, AreBefore, Outside, Source;
      SourceStep(masked, stretches, at);
      StretchIsCut(masked, found, spans, text, stretches, at);
      ModulesAreCut(masked, found, spans, text, stretches[1..], at + |Written(stretches[0])|);
    } else {
      hide IsFound, AreModules, Disjoint;
      assert at == |masked|;
    }
  }

  lemma {:induction false} ModuleIsCut(
      masked: string, found: seq<Span>, spans: seq<Span>, stretch: Stretch, at: nat)
    requires Disjoint(found, |masked|) && AreModules(masked, found, spans) && AreBefore(spans, at)
    requires Holds(masked, at, Written(stretch)) && !stretch.Rest?
    requires stretch.Inline? ==> AreBalanced(stretch.parts)
    requires Span(at, at + |stretch.head|) in found
    ensures var next := at + |Written(stretch)|;
      AreBefore(spans, next) && forall i :: at <= i < next ==> Covered(spans, i)
  {
    var head, next := Span(at, at + |stretch.head|), at + |Written(stretch)|;
    assert stretch.head != "" by {
      var i :| 0 <= i < |found| && found[i] == head;
      assert found[i].start < found[i].end;
    }
    forall span | Spans(masked, head, span) ensures span.end == next {
      HeadSpans(masked, at, stretch, span);
    }
    HeadIsSpan(masked, found, spans, head, next);
    SpanIsCut(spans, |masked|, Span(at, next));
  }

  /** The main result: of a source whose scanned form is written with test modules,
      what `strip` returns is the rest, from the buffer asked for. */
  lemma {:induction false} StripLeavesTheRest(
      buffers: Buffers, literals: bool, found: seq<Span>, cut: string, stretches: seq<Stretch>)
    requires Aligned(buffers) && Disjoint(found, |buffers.masked|)
    requires buffers.masked == Source(stretches) && IsFound(found, stretches, 0)
    requires IsCut(buffers.masked, found, if literals then buffers.named else buffers.kept, cut)
    ensures cut == Left(if literals then buffers.named else buffers.kept, stretches, 0)
  {
    hide Outside, Left, Source, IsFound, AreModules, Disjoint;
    var text := if literals then buffers.named else buffers.kept;
    var spans :| AreModules(buffers.masked, found, spans) && cut == Outside(text, spans, 0);
    assert buffers.masked[0..] == buffers.masked;
    ModulesAreCut(buffers.masked, found, spans, text, stretches, 0);
  }
}
