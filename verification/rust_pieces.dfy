/** What the scanner of scripts/containment.py makes of a Rust source that is
    written as a list of pieces: code, comments nested to any depth, and literals. */
module RustPieces {
  import opened Sequences
  import opened RustScanner
  import opened Options

  // --- Pieces, and how each is written ----------------------------------

  /** A character of a literal, or one behind a backslash. */
  datatype Unit = Plain(c: char) | Escape(c: char)

  datatype Part = Text(c: char) | Nested(parts: seq<Part>)

  datatype Piece =
    | Code(c: char)
    | LineComment(body: string)
    | BlockComment(parts: seq<Part>)
    | Str(units: seq<Unit>)
    | RawStr(hashes: nat, body: string)
    | CharLit(unit: Unit)

  function PrintUnit(unit: Unit): string {
    match unit
    case Plain(c) => [c]
    case Escape(c) => ['\\', c]
  }

  function PrintUnits(units: seq<Unit>): string {
    if units == [] then "" else PrintUnit(units[0]) + PrintUnits(units[1..])
  }

  function PrintPart(part: Part): string {
    match part
    case Text(c) => [c]
    case Nested(parts) => "/*" + PrintParts(parts) + "*/"
  }

  function PrintParts(parts: seq<Part>): string {
    if parts == [] then "" else PrintPart(parts[0]) + PrintParts(parts[1..])
  }

  function HashRun(count: nat): string {
    seq(count, _ => '#')
  }

  function Print(piece: Piece): string {
    match piece
    case Code(c) => [c]
    case LineComment(body) => "//" + body
    case BlockComment(parts) => "/*" + PrintParts(parts) + "*/"
    case Str(units) => "\"" + PrintUnits(units) + "\""
    case RawStr(hashes, body) => "r" + HashRun(hashes) + "\"" + body + "\"" + HashRun(hashes)
    case CharLit(unit) => "'" + PrintUnit(unit) + "'"
  }

  function PrintAll(pieces: seq<Piece>): string {
    if pieces == [] then "" else Print(pieces[0]) + PrintAll(pieces[1..])
  }

  // --- Where a piece may stand ------------------------------------------

  predicate Delimiter(a: char, b: char) {
    (a == '/' && b == '*') || (a == '*' && b == '/')
  }

  /** The text of a comment, before `after`, opens and closes nothing itself. */
  predicate Clean(parts: seq<Part>, after: string) {
    parts == [] ||
    var rest := PrintParts(parts[1..]) + after;
    && (match parts[0]
        case Text(c) => rest != "" && !Delimiter(c, rest[0])
        case Nested(inner) => Clean(inner, "*/" + rest))
    && Clean(parts[1..], after)
  }

  predicate PlainUnits(units: seq<Unit>) {
    forall k :: 0 <= k < |units| ==> units[k].Plain? ==> units[k].c != '"' && units[k].c != '\\'
  }

  /** `piece`, before `rest`, reads as itself: code opens no comment and no
      literal, a line comment ends its line, and a literal closes where it says. */
  predicate Placed(piece: Piece, rest: string) {
    match piece
    case Code(c) =>
      && c != '"'
      && !(c == '/' && rest != "" && (rest[0] == '/' || rest[0] == '*'))
      && !(c == 'r' && Hashes(rest, 0) < |rest| && rest[Hashes(rest, 0)] == '"')
      && CharLiteralEnd([c] + rest, 0) == None
    case LineComment(body) => '\n' !in body && (rest == "" || rest[0] == '\n')
    case BlockComment(parts) => Clean(parts, "*/" + rest)
    case Str(units) => PlainUnits(units)
    case RawStr(hashes, body) =>
      var close := "\"" + HashRun(hashes);
      forall j :: 0 <= j < |body| ==> !StartsAt(body + close, j, close)
    case CharLit(Plain(c)) => c != '\\' && c != '\''
    case CharLit(Escape(c)) => c != '\n'
  }

  predicate AllPlaced(pieces: seq<Piece>) {
    pieces == [] || (Placed(pieces[0], PrintAll(pieces[1..])) && AllPlaced(pieces[1..]))
  }

  // --- What each piece leaves -------------------------------------------

  predicate IsLiteral(piece: Piece) {
    piece.Str? || piece.RawStr? || piece.CharLit?
  }

  /** Code stays, a line comment goes, a block comment is one space, and a literal
      is kept, blanked, or kept where it is a path. */
  function Left(piece: Piece, before: string, pathValued: PathValued): Buffers {
    if piece.Code? then Same([piece.c])
    else if piece.LineComment? then Same("")
    else if piece.BlockComment? then Same(" ")
    else
      var literal := Print(piece);
      Buffers(Blank(literal), if pathValued(Before(before, |before|)) then literal else Blank(literal), literal)
  }

  function AllLeft(pieces: seq<Piece>, before: string, pathValued: PathValued): Buffers {
    if pieces == [] then Same("")
    else Left(pieces[0], before, pathValued).Plus(AllLeft(pieces[1..], before + Print(pieces[0]), pathValued))
  }

  // --- Reading a suffix -------------------------------------------------

  /** `text` from `i` on is `rest`. */
  ghost predicate From(text: string, i: nat, rest: string) {
    i <= |text| && text[i..] == rest
  }

  lemma {:induction false} FromParts(text: string, i: nat, a: string, b: string)
    requires From(text, i, a + b)
    ensures StartsAt(text, i, a) && From(text, i + |a|, b)
    ensures forall k :: 0 <= k < |a| ==> text[i + k] == a[k]
    ensures |text| == i + |a| + |b|
  {
    assert text[i..][..|a|] == (a + b)[..|a|] == a;
    assert text[i..i + |a|] == text[i..][..|a|];
    assert text[i..][|a|..] == (a + b)[|a|..] == b;
    assert text[i + |a|..] == text[i..][|a|..];
    forall k | 0 <= k < |a| ensures text[i + k] == a[k] {
      assert text[i..][k] == (a + b)[k];
    }
  }

  lemma {:induction false} FromHead(text: string, i: nat, rest: string)
    requires From(text, i, rest)
    ensures |text| == i + |rest|
    ensures forall k :: 0 <= k < |rest| ==> text[i + k] == rest[k]
  {
    forall k | 0 <= k < |rest| ensures text[i + k] == rest[k] {
      assert text[i..][k] == rest[k];
    }
  }

  lemma {:induction false} StartsWithPair(text: string, i: nat, a: char, b: char)
    ensures StartsAt(text, i, [a, b]) <==> i + 1 < |text| && text[i] == a && text[i + 1] == b
  {
    if i + 2 <= |text| {
      assert text[i..i + 2] == [text[i], text[i + 1]];
    }
  }

  lemma {:induction false} StartsWithOne(text: string, i: nat, a: char)
    ensures StartsAt(text, i, [a]) <==> i < |text| && text[i] == a
  {
    if i < |text| {
      assert text[i..i + 1] == [text[i]];
    }
  }

  // --- Comments ---------------------------------------------------------

  /** Inside a comment, its text is passed over at any depth. */
  lemma {:induction false} PartsArePassed(text: string, i: nat, parts: seq<Part>, after: string, depth: nat)
    requires From(text, i, PrintParts(parts) + after) && Clean(parts, after) && depth >= 1
    ensures i + |PrintParts(parts)| <= |text|
    ensures CommentEnd(text, i, depth) == CommentEnd(text, i + |PrintParts(parts)|, depth)
    decreases parts, 1
  {
    hide CommentEnd, From;
    if parts == [] {
      FromParts(text, i, "", after);
    } else {
      var first, more := PrintPart(parts[0]), PrintParts(parts[1..]);
      Associative(first, more, after);
      FromParts(text, i, first, more + after);
      PartIsPassed(text, i, parts[0], more + after, depth);
      PartsArePassed(text, i + |first|, parts[1..], after, depth);
    }
  }

  lemma {:induction false} PartIsPassed(text: string, i: nat, part: Part, rest: string, depth: nat)
    requires From(text, i, PrintPart(part) + rest) && depth >= 1
    requires match part
      case Text(c) => rest != "" && !Delimiter(c, rest[0])
      case Nested(inner) => Clean(inner, "*/" + rest)
    ensures i + |PrintPart(part)| <= |text|
    ensures CommentEnd(text, i, depth) == CommentEnd(text, i + |PrintPart(part)|, depth)
    decreases part, 0
  {
    hide CommentEnd, From, Clean, PrintParts;
    match part
    case Text(c) =>
      TextIsPassed(text, i, c, rest, depth);
    case Nested(inner) =>
      NestedParts(text, i, inner, rest);
      OpenGoesDown(text, i, depth);
      PartsArePassed(text, i + 2, inner, "*/" + rest, depth + 1);
      CloseComesUp(text, i + 2 + |PrintParts(inner)|, depth + 1);
  }

  lemma {:induction false} TextIsPassed(text: string, i: nat, c: char, rest: string, depth: nat)
    requires From(text, i, [c] + rest) && rest != "" && !Delimiter(c, rest[0])
    ensures i + 1 <= |text| && CommentEnd(text, i, depth) == CommentEnd(text, i + 1, depth)
  {
    FromHead(text, i, [c] + rest);
    StartsWithPair(text, i, '/', '*');
    StartsWithPair(text, i, '*', '/');
  }

  /** Where the opening, the text and the close of a comment stand. */
  lemma {:induction false} NestedParts(text: string, i: nat, parts: seq<Part>, rest: string)
    requires From(text, i, ("/*" + PrintParts(parts) + "*/") + rest)
    ensures StartsAt(text, i, "/*")
    ensures From(text, i + 2, PrintParts(parts) + ("*/" + rest))
    ensures StartsAt(text, i + 2 + |PrintParts(parts)|, "*/")
  {
    hide From, PrintParts;
    var middle := PrintParts(parts);
    Regrouped("/*", middle, "*/", rest);
    Associative("/*", middle, "*/" + rest);
    FromParts(text, i, "/*", middle + ("*/" + rest));
    FromParts(text, i + 2, middle, "*/" + rest);
    FromParts(text, i + 2 + |middle|, "*/", rest);
  }

  lemma {:induction false} OpenGoesDown(text: string, i: nat, depth: nat)
    requires StartsAt(text, i, "/*")
    ensures CommentEnd(text, i, depth) == CommentEnd(text, i + 2, depth + 1)
  {
  }

  lemma {:induction false} CloseComesUp(text: string, i: nat, depth: nat)
    requires StartsAt(text, i, "*/") && depth >= 1
    ensures CommentEnd(text, i, depth) == if depth <= 1 then i + 2 else CommentEnd(text, i + 2, depth - 1)
  {
    StartsWithPair(text, i, '/', '*');
    StartsWithPair(text, i, '*', '/');
  }

  /** A block comment ends at the close that matches, whatever is nested in it. */
  lemma {:induction false} CommentEndsAtItsClose(text: string, i: nat, parts: seq<Part>, rest: string)
    requires From(text, i, Print(BlockComment(parts)) + rest) && Clean(parts, "*/" + rest)
    ensures StartsAt(text, i, "/*")
    ensures CommentEnd(text, i + 2, 1) == i + |Print(BlockComment(parts))|
  {
    NestedParts(text, i, parts, rest);
    PartsArePassed(text, i + 2, parts, "*/" + rest, 1);
    CloseComesUp(text, i + 2 + |PrintParts(parts)|, 1);
  }

  // --- Literals ---------------------------------------------------------

  lemma {:induction false} UnitsArePassed(text: string, j: nat, units: seq<Unit>, rest: string)
    requires From(text, j, PrintUnits(units) + "\"" + rest) && PlainUnits(units)
    ensures StringEnd(text, j) == j + |PrintUnits(units)| + 1
    decreases |units|
  {
    if units == [] {
      Associative("", "\"", rest);
      FromParts(text, j, "\"", rest);
    } else {
      var first, more := PrintUnit(units[0]), PrintUnits(units[1..]);
      Regrouped(first, more, "\"", rest);
      FromParts(text, j, first, more + "\"" + rest);
      UnitsArePassed(text, j + |first|, units[1..], rest);
    }
  }

  lemma {:induction false} HashesShift(text: string, i: nat, rest: string, k: nat)
    requires From(text, i, rest) && k <= |rest|
    ensures Hashes(text, i + k) == i + Hashes(rest, k)
    decreases |rest| - k
  {
    FromHead(text, i, rest);
    if k < |rest| && rest[k] == '#' {
      HashesShift(text, i, rest, k + 1);
    }
  }

  lemma {:induction false} HashRunEnds(text: string, i: nat, count: nat, rest: string)
    requires From(text, i, HashRun(count) + rest) && (rest == "" || rest[0] != '#')
    ensures Hashes(text, i) == i + count
    decreases count
  {
    FromHead(text, i, HashRun(count) + rest);
    if count > 0 {
      assert text[i] == '#';
      assert text[i + 1..] == text[i..][1..];
      assert (HashRun(count) + rest)[1..] == HashRun(count - 1) + rest;
      HashRunEnds(text, i + 1, count - 1, rest);
    }
  }

  lemma {:induction false} CharLiteralShift(text: string, i: nat, rest: string)
    requires From(text, i, rest)
    ensures CharLiteralEnd(text, i) == match CharLiteralEnd(rest, 0) case None => None case Some(end) => Some(i + end)
  {
    FromHead(text, i, rest);
  }

  lemma {:induction false} RawCloses(text: string, q: nat, body: string, close: string, rest: string)
    requires close != "" && From(text, q, body + close + rest)
    requires forall j :: 0 <= j < |body| ==> !StartsAt(body + close, j, close)
    ensures Find(text, close, q) == Some(q + |body|)
  {
    FromParts(text, q, body + close, rest);
    Associative(body, close, rest);
    FromParts(text, q, body, close + rest);
    FromParts(text, q + |body|, close, rest);
    var whole := body + close;
    hide StartsAt;
    forall j | q <= j < q + |body| ensures !StartsAt(text, j, close) {
      StartsWithin(text, q, whole, j, close);
      assert !StartsAt(whole, j - q, close);
    }
  }

  lemma {:induction false} StartsWithin(text: string, q: nat, whole: string, j: nat, part: string)
    requires StartsAt(text, q, whole) && q <= j && j + |part| <= q + |whole|
    ensures StartsAt(text, j, part) <==> StartsAt(whole, j - q, part)
  {
    var here, there := text[j..j + |part|], whole[j - q..j - q + |part|];
    forall k | 0 <= k < |part| ensures here[k] == there[k] {
      assert here[k] == text[q..q + |whole|][j - q + k];
    }
    assert here == there;
  }

  lemma {:induction false} CharLiteralReads(text: string, i: nat, unit: Unit)
    requires var literal := Print(CharLit(unit));
      i + |literal| <= |text| && forall k :: 0 <= k < |literal| ==> text[i + k] == literal[k]
    requires match unit case Plain(c) => c != '\\' && c != '\'' case Escape(c) => c != '\n'
    ensures CharLiteralEnd(text, i) == Some(i + |Print(CharLit(unit))|) && text[i] == '\''
  {
    var literal := Print(CharLit(unit));
    assert text[i] == literal[0] && text[i + 1] == literal[1] && text[i + 2] == literal[2];
    assert unit.Escape? ==> text[i + 3] == literal[3];
  }

  lemma {:induction false} LiteralEnds(text: string, i: nat, piece: Piece, rest: string)
    requires IsLiteral(piece) && Placed(piece, rest) && From(text, i, Print(piece) + rest)
    ensures LiteralEnd(text, i) == Some(i + |Print(piece)|)
    ensures !StartsAt(text, i, "//") && !StartsAt(text, i, "/*")
  {
    hide Find, StringEnd, Hashes, From;
    FromParts(text, i, Print(piece), rest);
    StartsWithPair(text, i, '/', '/');
    StartsWithPair(text, i, '/', '*');
    match piece
    case Str(units) => StrEnds(text, i, units, rest);
    case RawStr(hashes, body) => RawEnds(text, i, hashes, body, rest);
    case CharLit(Plain(c)) => CharLiteralReads(text, i, piece.unit);
    case CharLit(Escape(c)) => CharLiteralReads(text, i, piece.unit);
  }

  lemma {:induction false} StrEnds(text: string, i: nat, units: seq<Unit>, rest: string)
    requires Placed(Str(units), rest) && From(text, i, Print(Str(units)) + rest)
    ensures i < |text| && LiteralEnd(text, i) == Some(i + |Print(Str(units))|)
  {
    hide StringEnd, From, Hashes;
    Regrouped("\"", PrintUnits(units), "\"", rest);
    FromParts(text, i, "\"", PrintUnits(units) + "\"" + rest);
    UnitsArePassed(text, i + 1, units, rest);
  }

  /** Where the parts of a raw string stand. */
  lemma {:induction false} RawLayout(text: string, i: nat, hashes: nat, body: string, rest: string)
    requires From(text, i, Print(RawStr(hashes, body)) + rest)
    ensures var q := i + 1 + hashes;
      && q < |text| && text[i] == 'r' && Hashes(text, i + 1) == q && text[q] == '"'
      && text[i + 1..q] == HashRun(hashes)
      && From(text, q + 1, body + ("\"" + HashRun(hashes)) + rest)
  {
    hide From, Hashes, HashRun;
    var run := HashRun(hashes);
    RunIsAsLong(hashes);
    RawIsParts(run, body, rest);
    RawParts(text, i, run, body + ("\"" + run) + rest);
    HashRunEnds(text, i + 1, hashes, "\"" + (body + ("\"" + run) + rest));
  }

  lemma {:induction false} RunIsAsLong(count: nat)
    ensures |HashRun(count)| == count
  {
  }

  lemma {:induction false} RawParts(text: string, i: nat, run: string, tail: string)
    requires From(text, i, ("r" + run) + ("\"" + tail))
    ensures var q := i + 1 + |run|;
      && q < |text| && text[i] == 'r' && text[q] == '"' && text[i + 1..q] == run
      && From(text, i + 1, run + ("\"" + tail)) && From(text, q + 1, tail)
  {
    hide From;
    Associative("r", run, "\"" + tail);
    FromParts(text, i, "r", run + ("\"" + tail));
    FromParts(text, i + 1, run, "\"" + tail);
    FromParts(text, i + 1 + |run|, "\"", tail);
  }

  lemma {:induction false} RawEnds(text: string, i: nat, hashes: nat, body: string, rest: string)
    requires From(text, i, Print(RawStr(hashes, body)) + rest) && Placed(RawStr(hashes, body), rest)
    ensures i < |text| && LiteralEnd(text, i) == Some(i + |Print(RawStr(hashes, body))|)
  {
    hide From, Hashes, Find;
    RawLayout(text, i, hashes, body, rest);
    RawCloses(text, i + 2 + hashes, body, "\"" + HashRun(hashes), rest);
  }

  lemma {:induction false} RawIsParts(run: string, body: string, rest: string)
    ensures ("r" + run + "\"" + body + "\"" + run) + rest == ("r" + run) + ("\"" + (body + ("\"" + run) + rest))
  {
  }

  lemma {:induction false} CodeIsNoLiteral(text: string, i: nat, c: char, rest: string)
    requires Placed(Code(c), rest) && From(text, i, [c] + rest)
    ensures LiteralEnd(text, i) == None
    ensures !StartsAt(text, i, "//") && !StartsAt(text, i, "/*")
  {
    FromHead(text, i, [c] + rest);
    FromParts(text, i, [c], rest);
    StartsWithPair(text, i, '/', '/');
    StartsWithPair(text, i, '/', '*');
    HashesShift(text, i + 1, rest, 0);
    CharLiteralShift(text, i, [c] + rest);
    HashesStay(rest, 0);
  }

  lemma {:induction false} HashesStay(text: string, i: nat)
    requires i <= |text|
    ensures Hashes(text, i) <= |text|
    decreases |text| - i
  {
    if i < |text| && text[i] == '#' {
      HashesStay(text, i + 1);
    }
  }

  lemma {:induction false} LineCommentEnds(text: string, i: nat, body: string, rest: string)
    requires Placed(LineComment(body), rest) && From(text, i, "//" + body + rest)
    ensures StartsAt(text, i, "//")
    ensures match Find(text, "\n", i) case None => i + 2 + |body| == |text| case Some(j) => j == i + 2 + |body|
  {
    FromParts(text, i, "//" + body, rest);
    FromHead(text, i, "//" + body + rest);
    Associative("//", body, rest);
    FromParts(text, i, "//", body + rest);
    var end := i + 2 + |body|;
    forall j | i <= j < end ensures !StartsAt(text, j, "\n") {
      assert text[j] == ("//" + body)[j - i];
      StartsWithOne(text, j, '\n');
    }
    if rest != "" {
      assert text[end] == rest[0];
      StartsWithOne(text, end, '\n');
    }
  }

  // --- The scan of a whole source ---------------------------------------

  /** One step reads one piece. */
  lemma {:induction false} StepReadsPiece(
      text: string, before: string, piece: Piece, rest: string, pathValued: PathValued)
    requires text == before + (Print(piece) + rest) && Placed(piece, rest)
    ensures Print(piece) != ""
    ensures Step(text, |before|, pathValued) == (Left(piece, before, pathValued), |before| + |Print(piece)|)
  {
    hide LiteralEnd, CommentEnd, Placed, Clean, PrintParts, PrintUnits, Before, Step;
    var i := |before|;
    assert From(text, i, Print(piece) + rest);
    FromParts(text, i, Print(piece), rest);
    if piece.Code? {
      CodeStep(text, i, piece, rest, pathValued);
    } else if piece.LineComment? {
      LineCommentStep(text, i, piece, rest, pathValued);
    } else if piece.BlockComment? {
      BlockCommentStep(text, i, piece, rest, pathValued);
    } else {
      LiteralStep(text, before, piece, rest, pathValued);
    }
  }

  lemma {:induction false} CodeStep(text: string, i: nat, piece: Piece, rest: string, pathValued: PathValued)
    requires piece.Code? && Placed(piece, rest) && From(text, i, Print(piece) + rest) && i < |text|
    ensures Step(text, i, pathValued) == (Same([piece.c]), i + 1)
  {
    FromHead(text, i, [piece.c] + rest);
    CodeIsNoLiteral(text, i, piece.c, rest);
  }

  lemma {:induction false} LineCommentStep(text: string, i: nat, piece: Piece, rest: string, pathValued: PathValued)
    requires piece.LineComment? && Placed(piece, rest) && From(text, i, Print(piece) + rest) && i < |text|
    ensures Step(text, i, pathValued) == (Same(""), i + |Print(piece)|)
  {
    LineCommentEnds(text, i, piece.body, rest);
  }

  lemma {:induction false} BlockCommentStep(text: string, i: nat, piece: Piece, rest: string, pathValued: PathValued)
    requires piece.BlockComment? && Placed(piece, rest) && From(text, i, Print(piece) + rest) && i < |text|
    ensures Step(text, i, pathValued) == (Same(" "), i + |Print(piece)|)
  {
    CommentEndsAtItsClose(text, i, piece.parts, rest);
    StartsWithPair(text, i, '/', '/');
    StartsWithPair(text, i, '/', '*');
  }

  lemma {:induction false} LiteralStep(text: string, before: string, piece: Piece, rest: string, pathValued: PathValued)
    requires IsLiteral(piece) && Placed(piece, rest) && text == before + (Print(piece) + rest) && |before| < |text|
    ensures Step(text, |before|, pathValued) == (Left(piece, before, pathValued), |before| + |Print(piece)|)
  {
    hide LiteralEnd, Print, From, Slice, Before, Placed;
    var i := |before|;
    PieceIsHere(text, before, Print(piece), rest);
    LiteralEnds(text, i, piece, rest);
  }

  lemma {:induction false} PieceIsHere(text: string, before: string, written: string, rest: string)
    requires text == before + (written + rest)
    ensures From(text, |before|, written + rest)
    ensures Slice(text, |before|, |before| + |written|) == written
    ensures Before(text, |before|) == Before(before, |before|)
  {
  }

  lemma {:induction false} ScanReadsPieces(before: string, pieces: seq<Piece>, pathValued: PathValued)
    requires AllPlaced(pieces)
    ensures Scan(before + PrintAll(pieces), |before|, pathValued) == AllLeft(pieces, before, pathValued)
    decreases |pieces|
  {
    hide Step, Left, Placed, Print;
    if pieces != [] {
      var first, rest := Print(pieces[0]), PrintAll(pieces[1..]);
      StepReadsPiece(before + (first + rest), before, pieces[0], rest, pathValued);
      Associative(before, first, rest);
      ScanReadsPieces(before + first, pieces[1..], pathValued);
    }
  }

  /** The main result: a source written in pieces is scanned to exactly what its
      pieces leave. */
  lemma {:induction false} SourceScansToItsPieces(pieces: seq<Piece>, pathValued: PathValued)
    requires AllPlaced(pieces)
    ensures Scan(PrintAll(pieces), 0, pathValued) == AllLeft(pieces, "", pathValued)
  {
    ScanReadsPieces("", pieces, pathValued);
    assert "" + PrintAll(pieces) == PrintAll(pieces);
  }

  // --- What else is read ------------------------------------------------

  /** A line comment leaves nothing and ends before its newline, or with the text; a block
      comment leaves one space, so that what is on either side stays apart. */
  lemma {:induction false} CommentsLeave(text: string, i: nat, pathValued: PathValued)
    requires i < |text|
    ensures var (left, next) := Step(text, i, pathValued);
      && (StartsAt(text, i, "//") ==>
            && left == Buffers("", "", "") && i < next <= |text|
            && '\n' !in text[i..next] && (next < |text| ==> text[next] == '\n'))
      && (StartsAt(text, i, "/*") ==> left == Buffers(" ", " ", " "))
  {
    hide LiteralEnd, CommentEnd;
    if StartsAt(text, i, "//") {
      var next := Step(text, i, pathValued).1;
      forall j | i <= j < next && j < |text| ensures text[j] != '\n' {
        StartsWithOne(text, j, '\n');
      }
      if next < |text| {
        StartsWithOne(text, next, '\n');
      }
    } else if StartsAt(text, i, "/*") {
      StartsWithPair(text, i, '/', '*');
      StartsWithPair(text, i, '/', '/');
    }
  }

  /** What is read as a character literal is one: a character or an escape in quotes. */
  lemma {:induction false} OnlyCharLiteralsAreRead(text: string, i: nat) returns (unit: Unit)
    requires CharLiteralEnd(text, i).Some?
    ensures match unit case Plain(c) => c != '\\' && c != '\'' case Escape(c) => c != '\n'
    ensures var literal := Print(CharLit(unit));
      StartsAt(text, i, literal) && CharLiteralEnd(text, i) == Some(i + |literal|)
  {
    var end := CharLiteralEnd(text, i).value;
    unit := if end == i + 4 then Escape(text[i + 2]) else Plain(text[i + 1]);
    var literal := Print(CharLit(unit));
    assert text[i..end] == literal;
  }

  /** A literal starts at a quote, at a character literal, or at an `r` before some `#`
      and a quote, and nowhere else. */
  lemma {:induction false} LiteralStartsIff(text: string, i: nat)
    requires i < |text|
    ensures LiteralEnd(text, i).Some? <==>
      text[i] == '"' || CharLiteralEnd(text, i).Some?
      || (text[i] == 'r' && exists count: nat :: StartsAt(text, i + 1, HashRun(count) + "\""))
  {
    if text[i] == 'r' {
      var quote := Hashes(text, i + 1);
      HashesAreRun(text, i + 1);
      hide StartsAt, HashRun;
      forall count: nat | StartsAt(text, i + 1, HashRun(count) + "\"")
        ensures quote == i + 1 + count && quote < |text| && text[quote] == '"'
      {
        RunAndQuote(text, i + 1, count);
      }
      if quote < |text| && text[quote] == '"' {
        QuoteAfterRun(text, i + 1, quote);
      }
    }
  }

  lemma {:induction false} RunAndQuote(text: string, i: nat, count: nat)
    requires StartsAt(text, i, HashRun(count) + "\"")
    ensures var quote := Hashes(text, i); quote == i + count && quote < |text| && text[quote] == '"'
  {
    var run := HashRun(count);
    var rest := text[i + |run| + 1..];
    assert text[i..] == text[i..i + |run| + 1] + rest;
    Associative(run, "\"", rest);
    HashRunEnds(text, i, count, "\"" + rest);
    FromParts(text, i, run, "\"" + rest);
    FromHead(text, i + |run|, "\"" + rest);
  }

  lemma {:induction false} QuoteAfterRun(text: string, i: nat, quote: nat)
    requires i <= quote < |text| && text[quote] == '"' && text[i..quote] == HashRun(quote - i)
    ensures StartsAt(text, i, HashRun(quote - i) + "\"")
  {
    assert text[i..quote + 1] == HashRun(quote - i) + "\"";
  }

  lemma {:induction false} HashesAreRun(text: string, i: nat)
    requires i <= |text|
    ensures var end := Hashes(text, i); end <= |text| && text[i..end] == HashRun(end - i)
    decreases |text| - i
  {
    if i < |text| && text[i] == '#' {
      HashesAreRun(text, i + 1);
    }
  }
}
