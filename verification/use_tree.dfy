/** The `use`-tree parser of scripts/containment.py: the paths a `use` imports,
    read off its tokens by two mutually recursive loops. */
module UseTree {
  import opened Sequences
  import opened Options
  import opened UseTokens

  // --- The parser, as a function ----------------------------------------

  function Join(path: seq<string>): string {
    if path == [] then ""
    else if |path| == 1 then path[0]
    else Join(path[..|path| - 1]) + "::" + path[|path| - 1]
  }

  /** What a finished branch yields. */
  function Found(path: seq<string>): seq<string> {
    if path == [] then [] else [Join(path)]
  }

  /** Whether a token adds a segment to `path`, and the segment. */
  function Extended(token: Token, path: seq<string>): seq<string> {
    match token
    case Star => path + ["*"]
    case Word(word) => if word == "self" && path != [] then path else path + [word]
    case _ => path
  }

  function Remaining(tokens: seq<Token>, i: nat): nat {
    if i <= |tokens| then |tokens| - i else 0
  }

  /** `group` from token `i`: the paths found, and where reading goes on. */
  function GroupOf(tokens: seq<Token>, i: nat, prefix: seq<string>): (r: (seq<string>, nat))
    ensures r.1 > i
    decreases Remaining(tokens, i), 1
  {
    if i < |tokens| && tokens[i] != Close then
      var (found, j) := BranchOf(tokens, i, prefix);
      var next := if j < |tokens| && tokens[j] == Comma then j + 1 else j;
      var (more, end) := GroupOf(tokens, next, prefix);
      (found + more, end)
    else ([], i + 1)
  }

  /** `branch` from token `i`, with `path` read so far. */
  function BranchOf(tokens: seq<Token>, i: nat, path: seq<string>): (r: (seq<string>, nat))
    ensures r.1 >= i
    ensures i < |tokens| && tokens[i] != Comma && tokens[i] != Close ==> r.1 > i
    decreases Remaining(tokens, i), 0
  {
    if i < |tokens| && tokens[i] != Comma && tokens[i] != Close then
      if tokens[i] == Open then GroupOf(tokens, i + 1, path)
      else if tokens[i] == Word("as") then (Found(path), i + 2)
      else BranchOf(tokens, i + 1, Extended(tokens[i], path))
    else (Found(path), i)
  }

  // --- The parser, as it runs -------------------------------------------

  /** Terminates on every token list, well formed or not. */
  method Group(tokens: seq<Token>, start: nat, prefix: seq<string>) returns (paths: seq<string>, i: nat)
    ensures (paths, i) == GroupOf(tokens, start, prefix)
    decreases Remaining(tokens, start), 1
  {
    paths, i := [], start;
    assert [] + GroupOf(tokens, start, prefix).0 == GroupOf(tokens, start, prefix).0;
    while i < |tokens| && tokens[i] != Close
      invariant i >= start
      invariant GroupOf(tokens, start, prefix).0 == paths + GroupOf(tokens, i, prefix).0
      invariant GroupOf(tokens, start, prefix).1 == GroupOf(tokens, i, prefix).1
      decreases Remaining(tokens, i)
    {
      var found;
      found, i := Branch(tokens, i, prefix);
      if i < |tokens| && tokens[i] == Comma {
        i := i + 1;
      }
      Associative(paths, found, GroupOf(tokens, i, prefix).0);
      paths := paths + found;
    }
    assert paths + [] == paths;
    i := i + 1;
  }

  method Branch(tokens: seq<Token>, start: nat, prefix: seq<string>) returns (paths: seq<string>, i: nat)
    ensures (paths, i) == BranchOf(tokens, start, prefix)
    decreases Remaining(tokens, start), 0
  {
    var path := prefix;
    i := start;
    while i < |tokens| && tokens[i] != Comma && tokens[i] != Close
      invariant i >= start
      invariant BranchOf(tokens, start, prefix) == BranchOf(tokens, i, path)
      decreases Remaining(tokens, i)
    {
      var token := tokens[i];
      if token == Open {
        paths, i := Group(tokens, i + 1, path);
        return;
      }
      if token == Word("as") {
        i := i + 2;
        return Found(path), i;
      }
      if token == Star || (token != PathSep && !(token == Word("self") && path != [])) {
        path := path + [if token == Star then "*" else token.word];
      }
      i := i + 1;
    }
    paths := Found(path);
  }

  method UsePaths(text: string, word: WordClass) returns (paths: seq<string>)
    ensures paths == PathsOf(text, word)
  {
    var i;
    paths, i := Group(Lexed(text, word), 0, []);
  }

  /** `use_paths`, of a tree's text. */
  function PathsOf(text: string, word: WordClass): seq<string> {
    GroupOf(Lexed(text, word), 0, []).0
  }

  // --- Use trees --------------------------------------------------------

  datatype Tree =
    | Name(name: string, alias: Option<string>)
    | Glob
    | Step(name: string, below: Tree)
    | Braces(trees: seq<Tree>, trailing: bool)

  /** A tree as written: `first` holds where no segment stands before it, the one
      place a path may step through `self`. */
  predicate WellFormed(tree: Tree, first: bool) {
    match tree
    case Name(name, _) => name != "as"
    case Glob => true
    case Step(name, below) => name != "as" && (name == "self" ==> first) && WellFormed(below, false)
    case Braces(trees, trailing) =>
      (trees == [] ==> !trailing) && forall k :: 0 <= k < |trees| ==> WellFormed(trees[k], first)
  }

  function Print(tree: Tree): seq<Token> {
    match tree
    case Name(name, None) => [Word(name)]
    case Name(name, Some(alias)) => [Word(name), Word("as"), Word(alias)]
    case Glob => [Star]
    case Step(name, below) => [Word(name), PathSep] + Print(below)
    case Braces(trees, trailing) => [Open] + PrintList(trees, trailing) + [Close]
  }

  function PrintList(trees: seq<Tree>, trailing: bool): seq<Token> {
    if trees == [] then []
    else if |trees| == 1 then Print(trees[0]) + if trailing then [Comma] else []
    else Print(trees[0]) + [Comma] + PrintList(trees[1..], trailing)
  }

  /** The paths a tree imports below `prefix`, in order: an alias names nothing
      new, and `self` below a path is that path. */
  function Leaves(tree: Tree, prefix: seq<string>): seq<string> {
    match tree
    case Name(name, _) => [Join(if name == "self" && prefix != [] then prefix else prefix + [name])]
    case Glob => [Join(prefix + ["*"])]
    case Step(name, below) => Leaves(below, prefix + [name])
    case Braces(trees, _) => ListLeaves(trees, prefix)
  }

  function ListLeaves(trees: seq<Tree>, prefix: seq<string>): seq<string> {
    if trees == [] then [] else Leaves(trees[0], prefix) + ListLeaves(trees[1..], prefix)
  }

  // --- Parsing inverts printing -----------------------------------------

  lemma {:induction false} HoldsAt(tokens: seq<Token>, i: nat, part: seq<Token>, k: nat)
    requires Holds(tokens, i, part) && k < |part|
    ensures i + k < |tokens| && tokens[i + k] == part[k]
  {
    assert tokens[i..i + |part|][k] == part[k];
  }

  ghost predicate EndsAt(tokens: seq<Token>, i: nat) {
    i == |tokens| || (i < |tokens| && (tokens[i] == Comma || tokens[i] == Close))
  }

  lemma {:induction false} PrintIsNeverClosed(tree: Tree)
    ensures Print(tree) != [] && Print(tree)[0] != Close && Print(tree)[0] != Comma
  {
  }

  // One step of each parser.

  lemma {:induction false} BranchStep(tokens: seq<Token>, i: nat, path: seq<string>)
    requires i < |tokens| && tokens[i] != Comma && tokens[i] != Close && tokens[i] != Open && tokens[i] != Word("as")
    ensures BranchOf(tokens, i, path) == BranchOf(tokens, i + 1, Extended(tokens[i], path))
  {
  }

  lemma {:induction false} BranchEnds(tokens: seq<Token>, i: nat, path: seq<string>)
    requires EndsAt(tokens, i)
    ensures BranchOf(tokens, i, path) == (Found(path), i)
  {
  }

  lemma {:induction false} GroupStep(tokens: seq<Token>, i: nat, path: seq<string>, found: seq<string>, j: nat)
    requires i < |tokens| && tokens[i] != Close && BranchOf(tokens, i, path) == (found, j)
    ensures var next := if j < |tokens| && tokens[j] == Comma then j + 1 else j;
      GroupOf(tokens, i, path) == (found + GroupOf(tokens, next, path).0, GroupOf(tokens, next, path).1)
  {
  }

  lemma {:induction false} GroupEnds(tokens: seq<Token>, i: nat, path: seq<string>)
    requires i < |tokens| && tokens[i] == Close
    ensures GroupOf(tokens, i, path) == ([], i + 1)
  {
  }

  lemma {:induction false} BranchReadsLeaf(tokens: seq<Token>, i: nat, tree: Tree, path: seq<string>)
    requires tree.Name? || tree.Glob?
    requires Holds(tokens, i, Print(tree)) && EndsAt(tokens, i + |Print(tree)|)
    requires WellFormed(tree, path == [])
    ensures BranchOf(tokens, i, path) == (Leaves(tree, path), i + |Print(tree)|)
  {
    hide Holds, Join, BranchOf, EndsAt;
    HoldsAt(tokens, i, Print(tree), 0);
    var after := Extended(tokens[i], path);
    BranchStep(tokens, i, path);
    if tree.Name? && tree.alias.Some? {
      HoldsAt(tokens, i, Print(tree), 1);
      AliasEnds(tokens, i + 1, after);
    } else {
      BranchEnds(tokens, i + 1, after);
    }
  }

  lemma {:induction false} StepReads(tokens: seq<Token>, i: nat, name: string, path: seq<string>)
    requires Holds(tokens, i, [Word(name), PathSep]) && name != "as" && (name == "self" ==> path == [])
    ensures BranchOf(tokens, i, path) == BranchOf(tokens, i + 2, path + [name])
  {
    hide Holds, BranchOf;
    HoldsAt(tokens, i, [Word(name), PathSep], 0);
    HoldsAt(tokens, i, [Word(name), PathSep], 1);
    BranchStep(tokens, i, path);
    BranchStep(tokens, i + 1, path + [name]);
  }

  lemma {:induction false} BranchReadsTree(tokens: seq<Token>, i: nat, tree: Tree, path: seq<string>)
    requires Holds(tokens, i, Print(tree)) && EndsAt(tokens, i + |Print(tree)|)
    requires WellFormed(tree, path == [])
    ensures BranchOf(tokens, i, path) == (Leaves(tree, path), i + |Print(tree)|)
    decreases tree, 1
  {
    hide Holds, Join, BranchOf, GroupOf, EndsAt;
    match tree
    case Name(_, _) => BranchReadsLeaf(tokens, i, tree, path);
    case Glob => BranchReadsLeaf(tokens, i, tree, path);
    case Step(name, below) =>
      HoldsParts(tokens, i, [Word(name), PathSep], Print(below));
      StepReads(tokens, i, name, path);
      BranchReadsTree(tokens, i + 2, below, path + [name]);
    case Braces(trees, trailing) =>
      Associative([Open], PrintList(trees, trailing), [Close]);
      HoldsParts(tokens, i, [Open], PrintList(trees, trailing) + [Close]);
      HoldsAt(tokens, i, [Open], 0);
      BraceOpens(tokens, i, path);
      GroupReadsList(tokens, i + 1, trees, trailing, path);
  }

  lemma {:induction false} AliasEnds(tokens: seq<Token>, i: nat, path: seq<string>)
    requires i < |tokens| && tokens[i] == Word("as")
    ensures BranchOf(tokens, i, path) == (Found(path), i + 2)
  {
  }

  lemma {:induction false} BraceOpens(tokens: seq<Token>, i: nat, path: seq<string>)
    requires i < |tokens| && tokens[i] == Open
    ensures BranchOf(tokens, i, path) == GroupOf(tokens, i + 1, path)
  {
  }

  lemma {:induction false} GroupReadsList(
      tokens: seq<Token>, i: nat, trees: seq<Tree>, trailing: bool, path: seq<string>)
    requires Holds(tokens, i, PrintList(trees, trailing) + [Close])
    requires forall k :: 0 <= k < |trees| ==> WellFormed(trees[k], path == [])
    ensures GroupOf(tokens, i, path) == (ListLeaves(trees, path), i + |PrintList(trees, trailing)| + 1)
    decreases trees, 0
  {
    hide Holds, Leaves, Print, WellFormed, BranchOf, GroupOf;
    if trees == [] {
      assert [] + [Close] == [Close];
      HoldsAt(tokens, i, [Close], 0);
      GroupEnds(tokens, i, path);
    } else {
      var first := Print(trees[0]);
      var rest := if |trees| > 1 then [Comma] + PrintList(trees[1..], trailing) else if trailing then [Comma] else [];
      ListStartsWith(trees, trailing);
      Associative(first, rest, [Close]);
      HoldsParts(tokens, i, first, rest + [Close]);
      PrintIsNeverClosed(trees[0]);
      HoldsAt(tokens, i, first, 0);
      var j := i + |first|;
      HoldsAt(tokens, j, rest + [Close], 0);
      BranchReadsTree(tokens, i, trees[0], path);
      GroupStep(tokens, i, path, Leaves(trees[0], path), j);
      if |trees| > 1 {
        Associative([Comma], PrintList(trees[1..], trailing), [Close]);
        HoldsParts(tokens, j, [Comma], PrintList(trees[1..], trailing) + [Close]);
        GroupReadsList(tokens, j + 1, trees[1..], trailing, path);
      } else {
        if trailing {
          HoldsAt(tokens, j, rest + [Close], 1);
        }
        GroupEnds(tokens, j + |rest|, path);
        assert trees[1..] == [];
      }
    }
  }

  lemma {:induction false} ListStartsWith(trees: seq<Tree>, trailing: bool)
    requires trees != []
    ensures var rest :=
        if |trees| > 1 then [Comma] + PrintList(trees[1..], trailing) else if trailing then [Comma] else [];
      PrintList(trees, trailing) == Print(trees[0]) + rest
  {
    if |trees| > 1 {
      Associative(Print(trees[0]), [Comma], PrintList(trees[1..], trailing));
    }
  }

  // --- What a path is ---------------------------------------------------

  /** A path read back: what stands between its `::`. */
  function Segments(path: string): (segments: seq<string>)
    ensures segments != []
  {
    if path == "" then [""]
    else if |path| >= 2 && path[0] == ':' && path[1] == ':' then [""] + Segments(path[2..])
    else
      var rest := Segments(path[1..]);
      [[path[0]] + rest[0]] + rest[1..]
  }

  lemma {:induction false} SegmentIsRead(segment: string, rest: string)
    requires ':' !in segment
    ensures Segments(segment + "::" + rest) == [segment] + Segments(rest)
  {
    var path := segment + "::" + rest;
    if segment == "" {
      assert path[2..] == rest;
    } else {
      assert path[1..] == segment[1..] + "::" + rest;
      SegmentIsRead(segment[1..], rest);
      assert [segment[0]] + segment[1..] == segment;
    }
  }

  lemma {:induction false} LastSegmentIsRead(segment: string)
    requires ':' !in segment
    ensures Segments(segment) == [segment]
  {
    if segment != "" {
      LastSegmentIsRead(segment[1..]);
      assert [segment[0]] + segment[1..] == segment;
    }
  }

  lemma {:induction false} JoinFront(path: seq<string>)
    requires |path| > 1
    ensures Join(path) == path[0] + "::" + Join(path[1..])
  {
    var n := |path| - 1;
    if n > 1 {
      JoinFront(path[..n]);
      assert path[..n][1..] == path[1..][..n - 1];
      Associative(path[0] + "::", Join(path[1..n]), "::");
      Associative(path[0] + "::", Join(path[1..n]) + "::", path[n]);
    } else {
      assert path[..1] == [path[0]] && path[1..] == [path[1]];
    }
  }

  predicate NoColons(path: seq<string>) {
    forall k :: 0 <= k < |path| ==> ':' !in path[k]
  }

  /** A path joined is read back as its segments. */
  lemma {:induction false} JoinIsRead(path: seq<string>)
    requires path != [] && NoColons(path)
    ensures Segments(Join(path)) == path
  {
    if |path| == 1 {
      LastSegmentIsRead(path[0]);
    } else {
      JoinFront(path);
      JoinIsRead(path[1..]);
      SegmentIsRead(path[0], Join(path[1..]));
    }
  }

  function AllSegments(paths: seq<string>): seq<seq<string>> {
    if paths == [] then [] else [Segments(paths[0])] + AllSegments(paths[1..])
  }

  lemma {:induction false} AllSegmentsConcat(a: seq<string>, b: seq<string>)
    ensures AllSegments(a + b) == AllSegments(a) + AllSegments(b)
  {
    if a == [] {
      assert a + b == b;
    } else {
      TailOfConcat(a, b);
      AllSegmentsConcat(a[1..], b);
      Associative([Segments(a[0])], AllSegments(a[1..]), AllSegments(b));
    }
  }

  /** The segments of each path a tree imports below `prefix`: every way from the root
      to a name or a glob. */
  function Ways(tree: Tree, prefix: seq<string>): seq<seq<string>> {
    match tree
    case Name(name, _) => [if name == "self" && prefix != [] then prefix else prefix + [name]]
    case Glob => [prefix + ["*"]]
    case Step(name, below) => Ways(below, prefix + [name])
    case Braces(trees, _) => ListWays(trees, prefix)
  }

  function ListWays(trees: seq<Tree>, prefix: seq<string>): seq<seq<string>> {
    if trees == [] then [] else Ways(trees[0], prefix) + ListWays(trees[1..], prefix)
  }

  /** No name holds a `:`, as no word `USE_TOKEN` matches does. */
  predicate IsOfWords(tree: Tree) {
    match tree
    case Name(name, _) => ':' !in name
    case Glob => true
    case Step(name, below) => ':' !in name && IsOfWords(below)
    case Braces(trees, _) => forall k :: 0 <= k < |trees| ==> IsOfWords(trees[k])
  }

  lemma {:induction false} LeavesAreWays(tree: Tree, prefix: seq<string>)
    requires IsOfWords(tree) && NoColons(prefix)
    ensures AllSegments(Leaves(tree, prefix)) == Ways(tree, prefix)
    decreases tree, 1
  {
    hide Join, Segments;
    match tree
    case Name(name, _) => LoneLeaf(if name == "self" && prefix != [] then prefix else prefix + [name]);
    case Glob => LoneLeaf(prefix + ["*"]);
    case Step(name, below) => LeavesAreWays(below, prefix + [name]);
    case Braces(trees, _) => ListLeavesAreWays(trees, prefix);
  }

  lemma {:induction false} LoneLeaf(path: seq<string>)
    requires path != [] && NoColons(path)
    ensures AllSegments([Join(path)]) == [path]
  {
    JoinIsRead(path);
    assert [Join(path)][1..] == [];
  }

  lemma {:induction false} ListLeavesAreWays(trees: seq<Tree>, prefix: seq<string>)
    requires (forall k :: 0 <= k < |trees| ==> IsOfWords(trees[k])) && NoColons(prefix)
    ensures AllSegments(ListLeaves(trees, prefix)) == ListWays(trees, prefix)
    decreases trees, 0
  {
    if trees != [] {
      hide Leaves, Ways, Segments, NoColons, IsOfWords;
      LeavesAreWays(trees[0], prefix);
      ListLeavesAreWays(trees[1..], prefix);
      AllSegmentsConcat(Leaves(trees[0], prefix), ListLeaves(trees[1..], prefix));
    }
  }

  /** The paths read off a tree's tokens, a leading `::` or none, are its leaves, in
      order. */
  lemma {:induction false} TokensReadAsLeaves(tree: Tree, leading: bool)
    requires WellFormed(tree, true)
    ensures GroupOf((if leading then [PathSep] else []) + Print(tree), 0, []).0 == Leaves(tree, [])
  {
    var lead := if leading then [PathSep] else [];
    var tokens := lead + Print(tree);
    assert Holds(tokens, |lead|, Print(tree));
    BranchReadsTree(tokens, |lead|, tree, []);
    PrintIsNeverClosed(tree);
    HoldsAt(tokens, |lead|, Print(tree), 0);
    assert BranchOf(tokens, 0, []) == BranchOf(tokens, |lead|, []);
    assert Leaves(tree, []) + [] == Leaves(tree, []);
  }

  predicate HoldNoColons(tokens: seq<Token>) {
    forall k :: 0 <= k < |tokens| && tokens[k].Word? ==> ':' !in tokens[k].word
  }

  lemma {:induction false} WordsHoldNoColons(written: seq<Spaced>, afterWord: bool, word: WordClass)
    requires IsSane(word) && AreApart(written, afterWord, word)
    ensures HoldNoColons(TokensOf(written))
  {
    if written != [] {
      var token := written[0].token;
      WordsHoldNoColons(written[1..], token.Word?, word);
      assert ":{},*"[0] == ':' && !word(':');
      assert token.Word? ==> ':' !in token.word;
    }
  }

  lemma {:induction false} TreeIsOfWords(tree: Tree)
    requires HoldNoColons(Print(tree))
    ensures IsOfWords(tree)
    decreases tree, 1
  {
    match tree
    case Name(name, _) => assert Print(tree)[0] == Word(name);
    case Glob =>
    case Step(name, below) =>
      var tokens := Print(tree);
      assert tokens[0] == Word(name);
      assert tokens[2..] == Print(below);
      TreeIsOfWords(below);
    case Braces(trees, trailing) =>
      var tokens := Print(tree);
      assert tokens[1..|tokens| - 1] == PrintList(trees, trailing);
      ListIsOfWords(trees, trailing);
  }

  lemma {:induction false} ListIsOfWords(trees: seq<Tree>, trailing: bool)
    requires HoldNoColons(PrintList(trees, trailing))
    ensures forall k :: 0 <= k < |trees| ==> IsOfWords(trees[k])
    decreases trees, 0
  {
    if trees != [] {
      var tokens, first := PrintList(trees, trailing), Print(trees[0]);
      assert tokens[..|first|] == first;
      TreeIsOfWords(trees[0]);
      if |trees| > 1 {
        assert tokens[|first| + 1..] == PrintList(trees[1..], trailing);
        ListIsOfWords(trees[1..], trailing);
      }
    }
  }

  /** The main result: the paths read off a tree's text, however it is spaced, hold
      between their `::` the segments on the way to each leaf, in order. */
  lemma {:induction false} UsePathsAreLeaves(
      tree: Tree, leading: bool, written: seq<Spaced>, tail: string, word: WordClass)
    requires WellFormed(tree, true) && IsSane(word)
    requires AreApart(written, false, word) && IsGap(tail, word)
    requires TokensOf(written) == (if leading then [PathSep] else []) + Print(tree)
    ensures PathsOf(Write(written, tail), word) == Leaves(tree, [])
    ensures AllSegments(PathsOf(Write(written, tail), word)) == Ways(tree, [])
  {
    WordsHoldNoColons(written, false, word);
    assert HoldNoColons(Print(tree)) by {
      var lead := if leading then [PathSep] else [];
      assert TokensOf(written)[|lead|..] == Print(tree);
    }
    TreeIsOfWords(tree);
    hide Lexed, AreApart, Leaves, Ways, Print, GroupOf, TokensOf, AllSegments, IsOfWords;
    TokensAreFound(written, false, tail, word);
    TokensReadAsLeaves(tree, leading);
    LeavesAreWays(tree, []);
  }

  /** `tokio::io::{self, AsyncRead as Read}` imports `tokio::io` and
      `tokio::io::AsyncRead`. */
  lemma {:induction false} SelfAndAliasAreRead(tail: seq<Token>)
    requires tail == [Open, Word("self"), Comma, Word("AsyncRead"), Word("as"), Word("Read"), Close]
    ensures GroupOf([Word("tokio"), PathSep, Word("io"), PathSep] + tail, 0, []).0
         == ["tokio::io", "tokio::io::AsyncRead"]
  {
    var trees := [Name("self", None), Name("AsyncRead", Some("Read"))];
    var braces := Braces(trees, false);
    var tree := Step("tokio", Step("io", braces));
    assert trees[1..] == [trees[1]];
    assert PrintList(trees[1..], false) == Print(trees[1]) + [];
    assert PrintList(trees, false) == [Word("self"), Comma, Word("AsyncRead"), Word("as"), Word("Read")];
    assert Print(braces) == tail;
    assert Print(tree) == [Word("tokio"), PathSep, Word("io"), PathSep] + tail;
    TokensReadAsLeaves(tree, false);
    SelfAndAliasLeaves(trees);
    assert [] + Print(tree) == Print(tree);
  }

  lemma {:induction false} SelfAndAliasLeaves(trees: seq<Tree>)
    requires trees == [Name("self", None), Name("AsyncRead", Some("Read"))]
    ensures Leaves(Step("tokio", Step("io", Braces(trees, false))), []) == ["tokio::io", "tokio::io::AsyncRead"]
  {
    hide Join;
    var io := ["tokio", "io"];
    assert [] + ["tokio"] == ["tokio"] && ["tokio"] + ["io"] == io
      && io + ["AsyncRead"] == ["tokio", "io", "AsyncRead"];
    JoinTwo("tokio", "io");
    JoinThree("tokio", "io", "AsyncRead");
    TwoLeaves(trees[0], trees[1], io);
    var braces := Braces(trees, false);
    assert Leaves(Step("tokio", Step("io", braces)), []) == Leaves(Step("io", braces), ["tokio"]);
    assert Leaves(Step("io", braces), ["tokio"]) == Leaves(braces, io);
    assert Leaves(trees[0], io) == [Join(io)];
    assert Leaves(trees[1], io) == [Join(io + ["AsyncRead"])];
    assert "tokio" + "::" + "io" == "tokio::io";
    assert "tokio" + "::" + "io" + "::" + "AsyncRead" == "tokio::io::AsyncRead";
  }

  lemma {:induction false} TwoLeaves(first: Tree, second: Tree, path: seq<string>)
    ensures ListLeaves([first, second], path) == Leaves(first, path) + Leaves(second, path)
  {
    hide Leaves;
    assert [first, second][1..] == [second] && [second][1..] == [];
    assert ListLeaves([second], path) == Leaves(second, path);
  }

  lemma {:induction false} JoinTwo(first: string, second: string)
    ensures Join([first, second]) == first + "::" + second
  {
    assert [first, second][..1] == [first];
  }

  lemma {:induction false} JoinThree(first: string, second: string, third: string)
    ensures Join([first, second, third]) == first + "::" + second + "::" + third
  {
    assert [first, second, third][..2] == [first, second];
    JoinTwo(first, second);
  }
}
