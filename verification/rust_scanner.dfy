/** The source scanner of scripts/containment.py: where a Rust literal ends, and
    the three aligned buffers `strip` builds from a source file. */
module RustScanner {
  import opened Sequences
  import opened Splitting
  import opened Options

  // --- Text -------------------------------------------------------------

  /** `part` is what stands in `text` at `i`. */
  predicate StartsAt(text: string, i: nat, part: string) {
    i + |part| <= |text| && text[i..i + |part|] == part
  }

  /** `str.find`: the first place from `i` on where `part` stands. */
  function Find(text: string, part: string, i: nat): (r: Option<nat>)
    ensures r.Some? ==> i <= r.value && StartsAt(text, r.value, part)
    ensures r.Some? ==> forall j :: i <= j < r.value ==> !StartsAt(text, j, part)
    ensures r == None ==> forall j :: i <= j ==> !StartsAt(text, j, part)
    decreases |text| - i
  {
    if i + |part| > |text| then None
    else if StartsAt(text, i, part) then Some(i)
    else Find(text, part, i + 1)
  }

  /** Python's slice, whose end may lie beyond the text. */
  function Slice(text: string, i: nat, end: nat): string
    requires i <= |text| && i <= end
  {
    text[i..if end <= |text| then end else |text|]
  }

  /** Every character but a newline as a space. */
  function Blank(text: string): (r: string)
    ensures |r| == |text|
    ensures forall k :: 0 <= k < |r| ==> r[k] == if text[k] == '\n' then '\n' else ' '
  {
    seq(|text|, k requires 0 <= k < |text| => if text[k] == '\n' then '\n' else ' ')
  }

  // --- Lines ------------------------------------------------------------

  /** How long each line of `text` is. */
  function LineLengths(text: string): (lengths: seq<nat>)
    ensures lengths != []
  {
    var lines := Split(text, '\n');
    seq(|lines|, k requires 0 <= k < |lines| => |lines[k]|)
  }

  lemma {:induction false} LengthsStep(text: string)
    requires text != ""
    ensures var more := LineLengths(text[1..]);
      LineLengths(text) == Longer(text[0] == '\n', more)
  {
  }

  /** The lines are all that blanking keeps of a text: two are blanked to one exactly
      when they have lines of the same lengths. */
  lemma {:induction false} BlankedAlikeIff(a: string, b: string)
    ensures Blank(a) == Blank(b) <==> LineLengths(a) == LineLengths(b)
  {
    if a != "" && b != "" {
      LengthsStep(a);
      LengthsStep(b);
      BlankedAlikeIff(a[1..], b[1..]);
      BlankStep(a);
      BlankStep(b);
      hide LineLengths, Blank, Split;
      StepsAlikeIff(a[0] == '\n', b[0] == '\n', LineLengths(a[1..]), LineLengths(b[1..]));
    } else {
      NoLines(a);
      NoLines(b);
    }
  }

  /** The lengths of the lines of a text that goes on with those of `more`. */
  function Longer(breaks: bool, more: seq<nat>): seq<nat>
    requires more != []
  {
    if breaks then [0] + more else [1 + more[0]] + more[1..]
  }

  lemma {:induction false} StepsAlikeIff(a: bool, b: bool, moreA: seq<nat>, moreB: seq<nat>)
    requires moreA != [] && moreB != []
    ensures Longer(a, moreA) == Longer(b, moreB) <==> a == b && moreA == moreB
  {
    var left, right := Longer(a, moreA), Longer(b, moreB);
    if left == right && a == b {
      assert if a then left[1..] == moreA && right[1..] == moreB
             else moreA == [left[0] - 1] + left[1..] && moreB == [right[0] - 1] + right[1..];
    }
    assert a != b ==> left[0] != right[0];
  }

  lemma {:induction false} NoLines(text: string)
    ensures LineLengths(text) == [0] <==> text == ""
  {
    if text != "" {
      LengthsStep(text);
      assert LineLengths(text)[0] > 0 || |LineLengths(text)| > 1;
    }
  }

  lemma {:induction false} BlankStep(text: string)
    requires text != ""
    ensures Blank(text) == [if text[0] == '\n' then '\n' else ' '] + Blank(text[1..])
  {
  }

  /** So what is blanked keeps its lines, and blanking it again changes nothing. */
  lemma {:induction false} BlankKeepsLines(text: string)
    ensures Blank(Blank(text)) == Blank(text) && LineLengths(Blank(text)) == LineLengths(text)
  {
    assert Blank(Blank(text)) == Blank(text);
    BlankedAlikeIff(Blank(text), text);
  }

  // --- Literals ---------------------------------------------------------

  /** The end of the run of `#` from `i` on. */
  function Hashes(text: string, i: nat): (end: nat)
    ensures end >= i
    decreases |text| - i
  {
    if i < |text| && text[i] == '#' then Hashes(text, i + 1) else i
  }

  /** The end of an ordinary string whose next character is at `j`. It is past the
      end of the text where the string is never closed. */
  function StringEnd(text: string, j: nat): (end: nat)
    ensures end > j
    decreases |text| - j
  {
    if j < |text| && text[j] != '"' then StringEnd(text, if text[j] == '\\' then j + 2 else j + 1) else j + 1
  }

  /** `'(\\.|[^\\'])'` at `i`. */
  function CharLiteralEnd(text: string, i: nat): Option<nat> {
    if i + 3 < |text| && text[i] == '\'' && text[i + 1] == '\\' && text[i + 2] != '\n' && text[i + 3] == '\'' then
      Some(i + 4)
    else if i + 2 < |text| && text[i] == '\'' && text[i + 1] != '\\' && text[i + 1] != '\'' && text[i + 2] == '\'' then
      Some(i + 3)
    else None
  }

  /** `literal_end`: the place just past the literal that opens at `i`, or none. */
  function LiteralEnd(text: string, i: nat): (end: Option<nat>)
    requires i < |text|
    ensures end.Some? ==> end.value > i
  {
    var quote := Hashes(text, i + 1);
    if text[i] == 'r' && quote < |text| && text[quote] == '"' then
      var close := "\"" + text[i + 1..quote];
      match Find(text, close, quote + 1)
      case None => Some(|text|)
      case Some(j) => Some(j + |close|)
    else if text[i] == '"' then Some(StringEnd(text, i + 1))
    else CharLiteralEnd(text, i)
  }

  // --- The scan ---------------------------------------------------------

  /** The three texts of the scan. They differ in which literals they blank: all of
      them, all but those that name a path, and none. */
  datatype Buffers = Buffers(masked: string, named: string, kept: string) {
    function Plus(more: Buffers): Buffers {
      Buffers(masked + more.masked, named + more.named, kept + more.kept)
    }
  }

  function Same(text: string): Buffers {
    Buffers(text, text, text)
  }

  /** Whether an attribute's path key stands before a literal: `PATH_VALUED`, on
      what precedes it. */
  type PathValued = string -> bool

  const PATH_KEY_REACH: nat := 64

  function Before(text: string, i: nat): string
    requires i <= |text|
  {
    text[if i < PATH_KEY_REACH then 0 else i - PATH_KEY_REACH..i]
  }

  /** Where a block comment ends, from `i` inside it at `depth`: at the close that
      matches, or the end of the text. */
  function CommentEnd(text: string, i: nat, depth: nat): (end: nat)
    requires i <= |text|
    ensures i <= end <= |text|
    decreases |text| - i
  {
    if i == |text| then i
    else if StartsAt(text, i, "/*") then CommentEnd(text, i + 2, depth + 1)
    else if StartsAt(text, i, "*/") then if depth <= 1 then i + 2 else CommentEnd(text, i + 2, depth - 1)
    else CommentEnd(text, i + 1, depth)
  }

  /** What is appended for what starts at `i`, and where the scan goes on. */
  function Step(text: string, i: nat, pathValued: PathValued): (r: (Buffers, nat))
    requires i < |text|
    ensures r.1 > i
  {
    if StartsAt(text, i, "//") then
      (Same(""), match Find(text, "\n", i) case None => |text| case Some(j) => NewlineIsLater(text, i, j); j)
    else if StartsAt(text, i, "/*") then (Same(" "), CommentEnd(text, i + 2, 1))
    else match LiteralEnd(text, i)
      case Some(end) =>
        var literal := Slice(text, i, end);
        (Buffers(Blank(literal), if pathValued(Before(text, i)) then literal else Blank(literal), literal), end)
      case None => (Same([text[i]]), i + 1)
  }

  lemma {:induction false} NewlineIsLater(text: string, i: nat, j: nat)
    requires StartsAt(text, i, "//") && StartsAt(text, j, "\n") && i <= j
    ensures j > i
  {
    assert text[i..i + 2][0] == '/';
    assert text[j..j + 1][0] == '\n';
  }

  /** A literal is kept as a path exactly when the path key is found in the 64
      characters before it, or in all there are. */
  lemma {:induction false} PathKeyIsInReach(
      text: string, i: nat, earlier: string, near: string, pathValued: PathValued)
    requires i < |text| && text[..i] == earlier + near && |near| <= 64 && (earlier != "" ==> |near| == 64)
    requires LiteralEnd(text, i).Some? && !StartsAt(text, i, "//") && !StartsAt(text, i, "/*")
    ensures var buffers, literal := Step(text, i, pathValued).0, Slice(text, i, LiteralEnd(text, i).value);
      && buffers.kept == literal && buffers.masked == Blank(literal)
      && buffers.named == if pathValued(near) then literal else Blank(literal)
  {
    hide LiteralEnd, Blank;
    assert Before(text, i) == text[..i][|earlier|..] == near;
  }

  function Scan(text: string, i: nat, pathValued: PathValued): Buffers
    decreases |text| - i
  {
    if i < |text| then
      var (piece, next) := Step(text, i, pathValued);
      piece.Plus(Scan(text, next, pathValued))
    else Same("")
  }

  // --- The scan, as it runs ---------------------------------------------

  method LiteralEndOf(text: string, i: nat) returns (end: Option<nat>)
    requires i < |text|
    ensures end == LiteralEnd(text, i)
  {
    if text[i] == 'r' {
      var quote := Hashes(text, i + 1);
      if quote < |text| && text[quote] == '"' {
        var close := "\"" + text[i + 1..quote];
        var j := Find(text, close, quote + 1);
        return Some(if j == None then |text| else j.value + |close|);
      }
    }
    if text[i] == '"' {
      var j, n := i + 1, |text|;
      while j < n && text[j] != '"'
        invariant StringEnd(text, i + 1) == StringEnd(text, j)
      {
        j := j + if text[j] == '\\' then 2 else 1;
      }
      return Some(j + 1);
    }
    return CharLiteralEnd(text, i);
  }

  /** The three buffers have one length, with newlines at the same offsets, and
      differ only where a literal is blanked. */
  ghost predicate Aligned(buffers: Buffers) {
    && |buffers.masked| == |buffers.named| == |buffers.kept|
    && forall k :: 0 <= k < |buffers.kept| ==>
         && (buffers.masked[k] == buffers.kept[k] || (buffers.masked[k] == ' ' && buffers.kept[k] != '\n'))
         && (buffers.named[k] == buffers.kept[k] || (buffers.named[k] == ' ' && buffers.kept[k] != '\n'))
         && (buffers.named[k] == buffers.kept[k] || buffers.named[k] == buffers.masked[k])
  }

  lemma {:induction false} AlignedPlus(a: Buffers, b: Buffers)
    requires Aligned(a) && Aligned(b)
    ensures Aligned(a.Plus(b))
  {
  }

  /** What a step appends to the three is aligned. */
  lemma {:induction false} StepIsAligned(text: string, i: nat, pathValued: PathValued)
    requires i < |text|
    ensures Aligned(Step(text, i, pathValued).0)
  {
  }

  lemma {:induction false} PlusIsAssociative(a: Buffers, b: Buffers, c: Buffers)
    ensures a.Plus(b).Plus(c) == a.Plus(b.Plus(c))
  {
    Associative(a.masked, b.masked, c.masked);
    Associative(a.named, b.named, c.named);
    Associative(a.kept, b.kept, c.kept);
  }

  lemma {:induction false} CommentStep(text: string, i: nat, depth: nat)
    requires i < |text|
    ensures CommentEnd(text, i, depth) ==
      if StartsAt(text, i, "/*") then CommentEnd(text, i + 2, depth + 1)
      else if StartsAt(text, i, "*/") then if depth <= 1 then i + 2 else CommentEnd(text, i + 2, depth - 1)
      else CommentEnd(text, i + 1, depth)
  {
  }

  lemma {:induction false} OpensAndEnds(text: string, start: nat)
    requires StartsAt(text, start, "/*")
    ensures start + 2 <= |text| && !StartsAt(text, start, "*/")
    ensures forall depth: nat :: CommentEnd(text, |text|, depth) == |text|
    ensures forall i: nat :: StartsAt(text, i, "/*") || StartsAt(text, i, "*/") ==> i + 2 <= |text|
  {
    assert text[start] == "/*"[0];
  }

  /** The inner loop of a block comment that opens at `start`. */
  method SkipComment(text: string, start: nat) returns (i: nat)
    requires StartsAt(text, start, "/*")
    ensures i == CommentEnd(text, start + 2, 1)
  {
    hide CommentEnd, StartsAt;
    i := start;
    var depth, n := 0, |text|;
    OpensAndEnds(text, start);
    while i < n
      invariant start <= i <= n
      invariant i == start ==> depth == 0
      invariant i > start ==> depth >= 1 && CommentEnd(text, start + 2, 1) == CommentEnd(text, i, depth)
      decreases n - i
    {
      CommentStep(text, i, depth);
      if StartsAt(text, i, "/*") {
        depth := depth + 1;
        i := i + 2;
      } else if StartsAt(text, i, "*/") {
        depth := depth - 1;
        i := i + 2;
        if depth == 0 {
          return;
        }
      } else {
        i := i + 1;
      }
    }
  }

  /** `strip` up to the test modules. */
  method ScanAll(text: string, pathValued: PathValued) returns (buffers: Buffers)
    ensures buffers == Scan(text, 0, pathValued)
    ensures Aligned(buffers)
  {
    hide Aligned, LiteralEnd, CommentEnd;
    var i, n := 0, |text|;
    var masked, named, kept := "", "", "";
    assert Aligned(Same("")) by { NothingIsAligned(); }
    while i < n
      invariant Aligned(Buffers(masked, named, kept))
      invariant Buffers(masked, named, kept).Plus(Scan(text, i, pathValued)) == Scan(text, 0, pathValued)
    {
      ghost var sofar, start := Buffers(masked, named, kept), i;
      StepIsAligned(text, i, pathValued);
      AlignedPlus(sofar, Step(text, i, pathValued).0);
      if StartsAt(text, i, "//") {
        var j := Find(text, "\n", i);
        i := if j == None then n else j.value;
      } else if StartsAt(text, i, "/*") {
        i := SkipComment(text, i);
        masked, named, kept := masked + " ", named + " ", kept + " ";
      } else {
        var end := LiteralEndOf(text, i);
        if end.Some? {
          var literal := Slice(text, i, end.value);
          masked := masked + Blank(literal);
          named := named + if pathValued(Before(text, i)) then literal else Blank(literal);
          kept := kept + literal;
          i := end.value;
        } else {
          masked, named, kept := masked + [text[i]], named + [text[i]], kept + [text[i]];
          i := i + 1;
        }
      }
      PlusIsAssociative(sofar, Step(text, start, pathValued).0, Scan(text, i, pathValued));
      assert Buffers(masked, named, kept) == sofar.Plus(Step(text, start, pathValued).0);
    }
    buffers := Buffers(masked, named, kept);
    assert buffers.Plus(Same("")) == buffers;
  }

  lemma {:induction false} NothingIsAligned()
    ensures Aligned(Same(""))
  {
  }
}
