/** Cutting `#[cfg(test)]` modules out of a scanned source, as `strip` and
    `test_module_spans` of scripts/containment.py do. */
module TestModules {
  import opened Sequences
  import opened RustScanner

  datatype Span = Span(start: nat, end: nat)

  // --- Where a module ends ----------------------------------------------

  /** Open braces less closed ones. */
  function Depth(text: string): int {
    if text == "" then 0
    else
      Depth(text[..|text| - 1])
      + (if text[|text| - 1] == '{' then 1 else 0) - (if text[|text| - 1] == '}' then 1 else 0)
  }

  /** `end` closes the block that opens at `from`: the first place the braces
      balance, or the end of the text where they never do. */
  ghost predicate ClosesBlock(text: string, from: nat, end: nat) {
    && from < end <= |text|
    && (forall m :: from < m < end ==> Depth(text[from..m]) != 0)
    && (Depth(text[from..end]) == 0 || end == |text|)
  }

  method BlockEnd(text: string, from: nat) returns (end: nat)
    requires from < |text|
    ensures ClosesBlock(text, from, end)
  {
    var depth, k := 0, from;
    while k < |text|
      invariant from <= k <= |text| && depth == Depth(text[from..k])
      invariant forall m :: from < m <= k ==> Depth(text[from..m]) != 0
    {
      assert text[from..k + 1][..k - from] == text[from..k];
      depth := depth + (if text[k] == '{' then 1 else 0) - (if text[k] == '}' then 1 else 0);
      k := k + 1;
      if depth == 0 {
        return k;
      }
    }
    end := |text|;
  }

  // --- The spans --------------------------------------------------------

  /** In bounds, in order and apart. */
  ghost predicate Disjoint(spans: seq<Span>, length: nat) {
    && (forall k :: 0 <= k < |spans| ==> spans[k].start < spans[k].end <= length)
    && forall j, k :: 0 <= j < k < |spans| ==> spans[j].end <= spans[k].start
  }

  /** What a match of `TEST_MODULE` spans: up to its `;`, or its closing brace. */
  ghost predicate Spans(text: string, found: Span, span: Span)
    requires found.end <= |text|
  {
    && span.start == found.start
    && if found.end < |text| && text[found.end] == '{' then ClosesBlock(text, found.end, span.end)
       else span.end == found.end + if found.end < |text| && text[found.end] == ';' then 1 else 0
  }

  /** Each span is one match's. */
  ghost predicate AllMatched(text: string, matches: seq<Span>, spans: seq<Span>)
    requires Disjoint(matches, |text|)
  {
    forall k :: 0 <= k < |spans| ==> exists i :: 0 <= i < |matches| && Spans(text, matches[i], spans[k])
  }

  /** Each of the first `count` matches starts in a span. */
  ghost predicate AllAccounted(matches: seq<Span>, count: nat, spans: seq<Span>)
    requires count <= |matches|
  {
    forall i :: 0 <= i < count ==> Covered(spans, matches[i].start)
  }

  lemma {:induction false} AppendSpan(text: string, matches: seq<Span>, i: nat, spans: seq<Span>, span: Span)
    requires i < |matches| && Disjoint(matches, |text|)
    requires Disjoint(spans, |text|) && AllMatched(text, matches, spans) && AllAccounted(matches, i, spans)
    requires Spans(text, matches[i], span) && span.start < span.end <= |text|
    requires spans != [] ==> spans[|spans| - 1].end <= span.start
    ensures Disjoint(spans + [span], |text|) && AllMatched(text, matches, spans + [span])
      && AllAccounted(matches, i + 1, spans + [span])
  {
    hide ClosesBlock, AllAccounted;
    var more := spans + [span];
    forall k | 0 <= k < |more| ensures exists i :: 0 <= i < |matches| && Spans(text, matches[i], more[k]) {
      if k == |spans| {
        assert Spans(text, matches[i], more[k]);
      } else {
        assert more[k] == spans[k];
      }
    }
    AccountOne(matches, i, spans, span);
  }

  lemma {:induction false} MatchIsInOrder(matches: seq<Span>, length: nat, i: nat)
    requires Disjoint(matches, length) && i < |matches|
    ensures matches[i].start < matches[i].end <= length
    ensures i + 1 < |matches| ==> matches[i].start < matches[i + 1].start
  {
  }

  lemma {:induction false} AccountInLast(matches: seq<Span>, i: nat, spans: seq<Span>)
    requires i < |matches| && AllAccounted(matches, i, spans)
    requires spans != [] && spans[|spans| - 1].start <= matches[i].start < spans[|spans| - 1].end
    ensures AllAccounted(matches, i + 1, spans)
  {
    assert Covered(spans, matches[i].start);
  }

  lemma {:induction false} AccountOne(matches: seq<Span>, i: nat, spans: seq<Span>, span: Span)
    requires i < |matches| && AllAccounted(matches, i, spans) && span.start <= matches[i].start < span.end
    ensures AllAccounted(matches, i + 1, spans + [span])
  {
    var more := spans + [span];
    forall j | 0 <= j < i + 1 ensures Covered(more, matches[j].start) {
      if j == i {
        assert more[|spans|].start <= matches[j].start < more[|spans|].end;
      } else {
        var k :| 0 <= k < |spans| && spans[k].start <= matches[j].start < spans[k].end;
        assert more[k] == spans[k];
      }
    }
  }

  /** In bounds, in order and apart, each span one match's, and every match starting
      in one: the test modules of `text`. */
  ghost predicate AreModules(text: string, matches: seq<Span>, spans: seq<Span>)
    requires Disjoint(matches, |text|)
  {
    Disjoint(spans, |text|) && AllMatched(text, matches, spans) && AllAccounted(matches, |matches|, spans)
  }

  /** `test_module_spans`, of what `TEST_MODULE.finditer` found in a text whose
      literals are blanked: outermost spans, each one match's. */
  method ModuleSpans(text: string, matches: seq<Span>) returns (spans: seq<Span>)
    requires Disjoint(matches, |text|)
    ensures AreModules(text, matches, spans)
  {
    spans := [];
    assert Disjoint(spans, |text|) && AllMatched(text, matches, spans) && AllAccounted(matches, 0, spans);
    hide AllMatched, ClosesBlock, AllAccounted, Covered, Disjoint;
    for i := 0 to |matches|
      invariant Disjoint(spans, |text|) && AllMatched(text, matches, spans) && AllAccounted(matches, i, spans)
      invariant spans != [] && i < |matches| ==> spans[|spans| - 1].start <= matches[i].start
    {
      var found := matches[i];
      MatchIsInOrder(matches, |text|, i);
      if spans != [] && found.start < spans[|spans| - 1].end {
        AccountInLast(matches, i, spans);
      } else {
        var span;
        if found.end == |text| || text[found.end] != '{' {
          span := Span(found.start, found.end + if found.end < |text| && text[found.end] == ';' then 1 else 0);
        } else {
          var end := BlockEnd(text, found.end);
          assert end > found.end by { EndsLater(text, found.end, end); }
          span := Span(found.start, end);
        }
        AppendSpan(text, matches, i, spans, span);
        spans := spans + [span];
      }
    }
  }

  lemma {:induction false} EndsLater(text: string, from: nat, end: nat)
    requires ClosesBlock(text, from, end)
    ensures from < end <= |text|
  {
  }

  // --- The cut ----------------------------------------------------------

  predicate Covered(spans: seq<Span>, i: nat) {
    exists k :: 0 <= k < |spans| && spans[k].start <= i < spans[k].end
  }

  /** The characters outside every span, in order. */
  function Outside(text: string, spans: seq<Span>, i: nat): string
    decreases |text| - i
  {
    if i >= |text| then "" else (if Covered(spans, i) then "" else [text[i]]) + Outside(text, spans, i + 1)
  }

  /** The stretches between the spans, from `from` on. */
  function Between(text: string, spans: seq<Span>, from: nat): string
    requires Disjoint(spans, |text|) && from <= |text| && (spans != [] ==> from <= spans[0].start)
    decreases |spans|
  {
    if spans == [] then text[from..]
    else text[from..spans[0].start] + Between(text, spans[1..], spans[0].end)
  }

  lemma {:induction false} OutsideShifts(text: string, spans: seq<Span>, i: nat)
    requires spans != [] && spans[0].end <= i
    ensures Outside(text, spans, i) == Outside(text, spans[1..], i)
    decreases |text| - i
  {
    if i < |text| {
      hide Covered;
      OutsideShifts(text, spans, i + 1);
      CoveredShifts(spans, i);
    }
  }

  lemma {:induction false} CoveredShifts(spans: seq<Span>, i: nat)
    requires spans != [] && spans[0].end <= i
    ensures Covered(spans, i) == Covered(spans[1..], i)
  {
    if Covered(spans, i) {
      var k :| 0 <= k < |spans| && spans[k].start <= i < spans[k].end;
      assert spans[1..][k - 1] == spans[k];
    }
    if Covered(spans[1..], i) {
      var k :| 0 <= k < |spans[1..]| && spans[1..][k].start <= i < spans[1..][k].end;
      assert spans[k + 1] == spans[1..][k];
    }
  }

  lemma {:induction false} OutsideSpan(text: string, spans: seq<Span>, i: nat)
    requires Disjoint(spans, |text|) && spans != [] && spans[0].start <= i <= spans[0].end
    ensures Outside(text, spans, i) == Outside(text, spans, spans[0].end)
    decreases spans[0].end - i
  {
    if i < spans[0].end {
      assert Covered(spans, i);
      OutsideSpan(text, spans, i + 1);
    }
  }

  lemma {:induction false} StartsInOrder(spans: seq<Span>, length: nat, k: nat)
    requires Disjoint(spans, length) && k < |spans|
    ensures spans[0].start <= spans[k].start
  {
    if k > 0 {
      StartsInOrder(spans, length, k - 1);
    }
  }

  lemma {:induction false} OutsideBefore(text: string, spans: seq<Span>, i: nat, stop: nat)
    requires Disjoint(spans, |text|) && i <= stop <= |text| && (spans != [] ==> stop <= spans[0].start)
    ensures Outside(text, spans, i) == text[i..stop] + Outside(text, spans, stop)
    decreases stop - i
  {
    if i < stop {
      OutsideBefore(text, spans, i + 1, stop);
      if Covered(spans, i) {
        var k :| 0 <= k < |spans| && spans[k].start <= i < spans[k].end;
        StartsInOrder(spans, |text|, k);
      }
      assert text[i..stop] == [text[i]] + text[i + 1..stop];
      Associative([text[i]], text[i + 1..stop], Outside(text, spans, stop));
    } else {
      assert text[i..stop] == "";
    }
  }

  /** The stretches between the spans are the characters outside them. */
  lemma {:induction false} BetweenIsOutside(text: string, spans: seq<Span>, from: nat)
    requires Disjoint(spans, |text|) && from <= |text| && (spans != [] ==> from <= spans[0].start)
    ensures Between(text, spans, from) == Outside(text, spans, from)
    decreases |spans|
  {
    if spans == [] {
      OutsideBefore(text, spans, from, |text|);
      assert Outside(text, spans, |text|) == "";
      assert text[from..] == text[from..|text|] + "";
    } else {
      OutsideBefore(text, spans, from, spans[0].start);
      OutsideSpan(text, spans, spans[0].start);
      OutsideShifts(text, spans, spans[0].end);
      BetweenIsOutside(text, spans[1..], spans[0].end);
    }
  }

  /** Cutting one span more, to the left of those cut. */
  lemma {:induction false} CutOneMore(text: string, span: Span, spans: seq<Span>)
    requires Disjoint([span] + spans, |text|)
    ensures Disjoint(spans, |text|) && span.start <= span.end <= |Between(text, spans, 0)|
    ensures Between(text, spans, 0)[..span.start] + Between(text, spans, 0)[span.end..]
      == Between(text, [span] + spans, 0)
  {
    DisjointTail(text, span, spans);
    BetweenFrom(text, spans, span.end);
    FirstBetween(text, span, spans);
    hide Between, Disjoint;
    CutAt(text[..span.end], Between(text, spans, span.end), span.start);
    assert text[..span.end][..span.start] == text[0..span.start];
  }

  lemma {:induction false} DisjointTail(text: string, span: Span, spans: seq<Span>)
    requires Disjoint([span] + spans, |text|)
    ensures Disjoint(spans, |text|) && span.start < span.end <= |text| && (spans != [] ==> span.end <= spans[0].start)
  {
    var all := [span] + spans;
    assert all[0] == span && forall k :: 0 <= k < |spans| ==> spans[k] == all[k + 1];
  }

  lemma {:induction false} FirstBetween(text: string, span: Span, spans: seq<Span>)
    requires Disjoint([span] + spans, |text|) && Disjoint(spans, |text|)
    requires span.end <= |text| && (spans != [] ==> span.end <= spans[0].start)
    ensures Between(text, [span] + spans, 0) == text[0..span.start] + Between(text, spans, span.end)
  {
    hide Disjoint;
    assert ([span] + spans)[1..] == spans;
  }

  lemma {:induction false} CutAt(first: string, rest: string, start: nat)
    requires start <= |first|
    ensures (first + rest)[..start] + (first + rest)[|first|..] == first[..start] + rest
  {
  }

  lemma {:induction false} BetweenFrom(text: string, spans: seq<Span>, from: nat)
    requires Disjoint(spans, |text|) && from <= |text| && (spans != [] ==> from <= spans[0].start)
    ensures Between(text, spans, 0) == text[..from] + Between(text, spans, from)
  {
    if spans == [] {
      assert text[0..] == text[..from] + text[from..];
    } else {
      assert text[0..spans[0].start] == text[..from] + text[from..spans[0].start];
      Associative(text[..from], text[from..spans[0].start], Between(text, spans[1..], spans[0].end));
    }
  }

  /** The loop that cuts the spans out, right to left: exactly the characters
      outside every span are left, in order. */
  method Cut(source: string, spans: seq<Span>) returns (text: string)
    requires Disjoint(spans, |source|)
    ensures text == Outside(source, spans, 0)
  {
    text := source;
    assert spans[|spans|..] == [];
    for k := |spans| downto 0
      invariant Disjoint(spans[k..], |source|) && text == Between(source, spans[k..], 0)
    {
      assert spans[k..] == [spans[k]] + spans[k + 1..];
      assert Disjoint(spans[k..], |source|);
      CutOneMore(source, spans[k], spans[k + 1..]);
      text := text[..spans[k].start] + text[spans[k].end..];
    }
    assert spans[0..] == spans;
    BetweenIsOutside(source, spans, 0);
  }

  /** `cut` is `text` without the test modules of `masked`. */
  ghost predicate IsCut(masked: string, found: seq<Span>, text: string, cut: string)
    requires Disjoint(found, |masked|)
  {
    exists spans :: AreModules(masked, found, spans) && cut == Outside(text, spans, 0)
  }

  /** `strip`: the scan, then the cut. What `TEST_MODULE` finds is a parameter. */
  method Strip(
      source: string, literals: bool, pathValued: PathValued, finds: string -> seq<Span>) returns (text: string)
    requires Disjoint(finds(Scan(source, 0, pathValued).masked), |Scan(source, 0, pathValued).masked|)
    ensures var buffers := Scan(source, 0, pathValued);
      IsCut(buffers.masked, finds(buffers.masked), if literals then buffers.named else buffers.kept, text)
  {
    var buffers := ScanAll(source, pathValued);
    var spans := ModuleSpans(buffers.masked, finds(buffers.masked));
    assert AreModules(buffers.masked, finds(buffers.masked), spans);
    text := Cut(if literals then buffers.named else buffers.kept, spans);
  }
}
