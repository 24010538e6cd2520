/** The gate walker of scripts/containment.py: whether a `cfg` predicate names a
    feature flag, under `not(` groups of a given parity. */
module CfgGate {
  import opened RustScanner
  import opened Options

  /** `\w` and `\s`. */
  datatype Classes = Classes(word: char -> bool, space: char -> bool)

  /** A flag asked for at one polarity, or at either, in a predicate whose own
      delimiter closes with `closes` and that is a `cfg_attr` or not. */
  datatype Gate = Gate(flag: string, negated: bool, polarity: bool, closes: char, applies: bool, classes: Classes)

  /** What the walk relies on of the two classes. */
  ghost predicate Sane(classes: Classes) {
    && (forall c :: 'a' <= c <= 'z' ==> classes.word(c))
    && (forall c :: classes.word(c) ==> !classes.space(c))
    && forall c :: c in "()[]{},=\"'#" ==> !classes.word(c) && !classes.space(c)
  }

  // --- The patterns -----------------------------------------------------

  function SkipSpaces(text: string, i: nat, classes: Classes): (j: nat)
    ensures j >= i
    decreases |text| - i
  {
    if i < |text| && classes.space(text[i]) then SkipSpaces(text, i + 1, classes) else i
  }

  predicate WordBefore(text: string, i: nat, classes: Classes) {
    0 < i <= |text| && classes.word(text[i - 1])
  }

  /** `\bnot\s*\(` at `i`: where it ends. */
  function NegationEnd(text: string, i: nat, classes: Classes): (end: Option<nat>)
    requires i < |text|
    ensures end.Some? ==> end.value > i
  {
    var j := SkipSpaces(text, i + 3, classes);
    if WordBefore(text, i, classes) != classes.word(text[i]) && StartsAt(text, i, "not") && j < |text| && text[j] == '('
    then Some(j + 1)
    else None
  }

  function Quote(flag: string): string {
    "\"" + flag + "\""
  }

  /** `(?<!\w)feature\s*=\s*"flag"` at `i`: where it ends. */
  function FlagEnd(text: string, i: nat, gate: Gate): (end: Option<nat>)
    requires i < |text|
    ensures end.Some? ==> end.value > i
  {
    var j := SkipSpaces(text, i + 7, gate.classes);
    var k := SkipSpaces(text, j + 1, gate.classes);
    if !WordBefore(text, i, gate.classes) && StartsAt(text, i, "feature") && j < |text| && text[j] == '='
      && StartsAt(text, k, Quote(gate.flag))
    then Some(k + |gate.flag| + 2)
    else None
  }

  // --- The walk ---------------------------------------------------------

  function Top(parity: seq<bool>): bool
    requires parity != []
  {
    parity[|parity| - 1]
  }

  function Closer(gate: Gate, depth: nat): char {
    if depth == 1 then gate.closes else ')'
  }

  predicate Wanted(gate: Gate, odd: bool) {
    !gate.polarity || odd == gate.negated
  }

  /** The walk from `i`, with the parity of each open group, innermost last. */
  predicate Walk(gate: Gate, text: string, i: nat, parity: seq<bool>)
    decreases |text| - i
  {
    if i >= |text| || parity == [] then false
    else if NegationEnd(text, i, gate.classes).Some? then
      Walk(gate, text, NegationEnd(text, i, gate.classes).value, parity + [!Top(parity)])
    else if FlagEnd(text, i, gate).Some? then
      Wanted(gate, Top(parity)) || Walk(gate, text, FlagEnd(text, i, gate).value, parity)
    else if text[i] == '(' then Walk(gate, text, i + 1, parity + [Top(parity)])
    else if text[i] == Closer(gate, |parity|) then Walk(gate, text, i + 1, parity[..|parity| - 1])
    else if gate.applies && text[i] == ',' && |parity| == 1 then false
    else match LiteralEnd(text, i)
      case Some(end) => Walk(gate, text, end, parity)
      case None => Walk(gate, text, i + 1, parity)
  }

  /** `Gate.names`, of a predicate whose opening ends at `start`. */
  method Names(gate: Gate, text: string, start: nat) returns (named: bool)
    ensures named == Walk(gate, text, start, [false])
  {
    var parity, i := [false], start;
    while i < |text| && parity != []
      invariant Walk(gate, text, start, [false]) == Walk(gate, text, i, parity)
      decreases |text| - i
    {
      var negation, flag := NegationEnd(text, i, gate.classes), FlagEnd(text, i, gate);
      if negation.Some? {
        parity := parity + [!parity[|parity| - 1]];
        i := negation.value;
      } else if flag.Some? {
        if !gate.polarity || parity[|parity| - 1] == gate.negated {
          return true;
        }
        i := flag.value;
      } else if text[i] == '(' {
        parity := parity + [parity[|parity| - 1]];
        i := i + 1;
      } else if text[i] == (if |parity| == 1 then gate.closes else ')') {
        parity := parity[..|parity| - 1];
        i := i + 1;
      } else if gate.applies && text[i] == ',' && |parity| == 1 {
        return false;
      } else {
        var end := LiteralEndOf(text, i);
        i := if end.Some? then end.value else i + 1;
      }
    }
    named := false;
  }

  // --- Predicates as lexemes --------------------------------------------

  datatype Lexeme =
    | NotOpen(gap: string)
    | Flag(before: string, after: string)
    | Open
    | Shut(c: char)
    | Comma
    | Quoted(body: string)
    | Word(word: string)
    | Other(c: char)

  function Print(gate: Gate, lexeme: Lexeme): string {
    match lexeme
    case NotOpen(gap) => "not" + (gap + "(")
    case Flag(before, after) => "feature" + (before + ("=" + (after + Quote(gate.flag))))
    case Open => "("
    case Shut(c) => [c]
    case Comma => ","
    case Quoted(body) => "\"" + body + "\""
    case Word(word) => word
    case Other(c) => [c]
  }

  function PrintAll(gate: Gate, lexemes: seq<Lexeme>): string {
    if lexemes == [] then "" else Print(gate, lexemes[0]) + PrintAll(gate, lexemes[1..])
  }

  predicate AllSpace(text: string, classes: Classes) {
    forall k :: 0 <= k < |text| ==> classes.space(text[k])
  }

  /** A word, before `rest`, is not the start of a negation or of the flag, and not
      the prefix of a raw string. */
  predicate PlainWord(gate: Gate, word: string, rest: string) {
    && word != ""
    && (forall k :: 0 <= k < |word| ==> gate.classes.word(word[k]))
    && (rest != "" ==> !gate.classes.word(rest[0]) && rest[0] != '"' && rest[0] != '#')
    && (word == "not" ==>
          var j := SkipSpaces(rest, 0, gate.classes);
          !(j < |rest| && rest[j] == '('))
    && (word == "feature" ==> !FlagFollows(gate, rest))
  }

  /** Whether `rest`, after the word `feature`, makes it the flag. */
  predicate FlagFollows(gate: Gate, rest: string) {
    var j := SkipSpaces(rest, 0, gate.classes);
    j < |rest| && rest[j] == '=' && StartsAt(rest, SkipSpaces(rest, j + 1, gate.classes), Quote(gate.flag))
  }

  /** `lexeme`, after a word character or not and before `rest`, reads as itself. */
  predicate Placed(gate: Gate, lexeme: Lexeme, wordBefore: bool, rest: string) {
    match lexeme
    case NotOpen(gap) => !wordBefore && AllSpace(gap, gate.classes)
    case Flag(before, after) => !wordBefore && AllSpace(before, gate.classes) && AllSpace(after, gate.classes)
    case Open | Comma => true
    case Shut(c) => c in ")}]"
    case Quoted(body) => '"' !in body && '\\' !in body
    case Word(word) => !wordBefore && PlainWord(gate, word, rest)
    case Other(c) => !gate.classes.word(c) && c !in "()}],\"'"
  }

  predicate AllPlaced(gate: Gate, lexemes: seq<Lexeme>, wordBefore: bool) {
    lexemes == [] ||
    (Placed(gate, lexemes[0], wordBefore, PrintAll(gate, lexemes[1..]))
      && AllPlaced(gate, lexemes[1..], lexemes[0].Word?))
  }

  /** The walk over lexemes. */
  predicate WalkLexemes(gate: Gate, lexemes: seq<Lexeme>, parity: seq<bool>)
    decreases |lexemes|
  {
    if lexemes == [] || parity == [] then false
    else
      var rest := lexemes[1..];
      match lexemes[0]
      case NotOpen(_) => WalkLexemes(gate, rest, parity + [!Top(parity)])
      case Flag(_, _) => Wanted(gate, Top(parity)) || WalkLexemes(gate, rest, parity)
      case Open => WalkLexemes(gate, rest, parity + [Top(parity)])
      case Shut(c) => WalkLexemes(gate, rest, if c == Closer(gate, |parity|) then parity[..|parity| - 1] else parity)
      case Comma => !(gate.applies && |parity| == 1) && WalkLexemes(gate, rest, parity)
      case _ => WalkLexemes(gate, rest, parity)
  }

  // --- What encloses what -----------------------------------------------

  /** How many groups are open before the `k`-th lexeme: one to begin with, and
      none from where the predicate's own delimiter closes. */
  function DepthAt(gate: Gate, lexemes: seq<Lexeme>, k: nat): nat
    requires k <= |lexemes|
  {
    if k == 0 then 1
    else
      var depth := DepthAt(gate, lexemes, k - 1);
      if depth == 0 then 0
      else match lexemes[k - 1]
        case NotOpen(_) | Open => depth + 1
        case Shut(c) => if c == Closer(gate, depth) then depth - 1 else depth
        case _ => depth
  }

  /** The group the `j`-th lexeme opens is still open at the `k`-th. */
  ghost predicate Encloses(gate: Gate, lexemes: seq<Lexeme>, j: nat, k: nat)
    requires j < k <= |lexemes|
  {
    && (lexemes[j].NotOpen? || lexemes[j].Open?)
    && DepthAt(gate, lexemes, j) > 0
    && forall m :: j < m <= k ==> DepthAt(gate, lexemes, m) > DepthAt(gate, lexemes, j)
  }

  /** How many of the first `count` lexemes are a `not(` that encloses the `k`-th at
      one of its `depth` outermost levels. */
  ghost function Negations(gate: Gate, lexemes: seq<Lexeme>, k: nat, depth: nat, count: nat): nat
    requires count <= k <= |lexemes|
  {
    if count == 0 then 0
    else
      Negations(gate, lexemes, k, depth, count - 1) +
      if lexemes[count - 1].NotOpen? && Encloses(gate, lexemes, count - 1, k)
         && DepthAt(gate, lexemes, count - 1) <= depth
      then 1 else 0
  }

  /** The walk reaches the `k`-th lexeme: the predicate is still open, and no comma
      has ended the first argument of a `cfg_attr`. */
  ghost predicate Reached(gate: Gate, lexemes: seq<Lexeme>, k: nat)
    requires k <= |lexemes|
  {
    && DepthAt(gate, lexemes, k) > 0
    && (gate.applies ==> forall m :: 0 <= m < k && lexemes[m].Comma? ==> DepthAt(gate, lexemes, m) != 1)
  }

  /** The `k`-th lexeme is the flag, reached, at a polarity asked for. */
  ghost predicate NamesAt(gate: Gate, lexemes: seq<Lexeme>, k: nat)
    requires k < |lexemes|
  {
    && lexemes[k].Flag?
    && Reached(gate, lexemes, k)
    && Wanted(gate, Negations(gate, lexemes, k, DepthAt(gate, lexemes, k), k) % 2 == 1)
  }

  // --- The stack holds the parity of what encloses ----------------------

  /** `parity` is the stack before the `k`-th lexeme. */
  ghost predicate StackAt(gate: Gate, lexemes: seq<Lexeme>, k: nat, parity: seq<bool>)
    requires k <= |lexemes|
  {
    && |parity| == DepthAt(gate, lexemes, k)
    && forall level :: 0 <= level < |parity| ==> parity[level] == (Negations(gate, lexemes, k, level, k) % 2 == 1)
  }

  /** Going from one lexeme to the next changes the count of none of the levels
      that stay open. */
  lemma {:induction false} NegationsKept(gate: Gate, lexemes: seq<Lexeme>, k: nat, level: nat, count: nat)
    requires count <= k < |lexemes| && DepthAt(gate, lexemes, k) > 0
    requires level < DepthAt(gate, lexemes, k + 1)
    ensures Negations(gate, lexemes, k + 1, level, count) == Negations(gate, lexemes, k, level, count)
  {
    if count > 0 {
      NegationsKept(gate, lexemes, k, level, count - 1);
      var j := count - 1;
      if DepthAt(gate, lexemes, j) <= level {
        assert Encloses(gate, lexemes, j, k + 1) <==> Encloses(gate, lexemes, j, k);
      }
    }
  }

  /** No opener deeper than the current level encloses. */
  lemma {:induction false} NegationsCapped(gate: Gate, lexemes: seq<Lexeme>, k: nat, level: nat, more: nat, count: nat)
    requires count <= k <= |lexemes| && level <= more && DepthAt(gate, lexemes, k) <= level + 1
    ensures Negations(gate, lexemes, k, level, count) == Negations(gate, lexemes, k, more, count)
  {
    if count > 0 {
      NegationsCapped(gate, lexemes, k, level, more, count - 1);
      if Encloses(gate, lexemes, count - 1, k) {
        assert DepthAt(gate, lexemes, k) > DepthAt(gate, lexemes, count - 1);
      }
    }
  }

  function NextParity(gate: Gate, lexeme: Lexeme, parity: seq<bool>): seq<bool>
    requires parity != []
  {
    match lexeme
    case NotOpen(_) => parity + [!Top(parity)]
    case Open => parity + [Top(parity)]
    case Shut(c) => if c == Closer(gate, |parity|) then parity[..|parity| - 1] else parity
    case _ => parity
  }

  lemma {:induction false} StackAdvances(gate: Gate, lexemes: seq<Lexeme>, k: nat, parity: seq<bool>)
    requires k < |lexemes| && StackAt(gate, lexemes, k, parity) && parity != []
    ensures StackAt(gate, lexemes, k + 1, NextParity(gate, lexemes[k], parity))
  {
    var next := NextParity(gate, lexemes[k], parity);
    var depth := DepthAt(gate, lexemes, k);
    forall level | 0 <= level < |next| ensures next[level] == (Negations(gate, lexemes, k + 1, level, k + 1) % 2 == 1) {
      NegationsKept(gate, lexemes, k, level, k);
      if level == depth {
        assert Encloses(gate, lexemes, k, k + 1);
        NegationsCapped(gate, lexemes, k, depth - 1, depth, k);
      }
    }
  }

  /** The walk from the `k`-th lexeme finds exactly the occurrences from there on. */
  lemma {:induction false} WalkFinds(gate: Gate, lexemes: seq<Lexeme>, k: nat, parity: seq<bool>)
    requires k <= |lexemes| && StackAt(gate, lexemes, k, parity) && (parity != [] ==> Reached(gate, lexemes, k))
    ensures WalkLexemes(gate, lexemes[k..], parity) <==> exists m :: k <= m < |lexemes| && NamesAt(gate, lexemes, m)
    decreases |lexemes| - k
  {
    if parity == [] {
      forall m | k <= m < |lexemes| ensures !NamesAt(gate, lexemes, m) {
        StaysClosed(gate, lexemes, k, m);
      }
    } else if k < |lexemes| {
      assert lexemes[k..][0] == lexemes[k] && lexemes[k..][1..] == lexemes[k + 1..];
      var next := NextParity(gate, lexemes[k], parity);
      StackAdvances(gate, lexemes, k, parity);
      NamedAtTop(gate, lexemes, k, parity);
      hide StackAt, NextParity, NamesAt, Wanted;
      if lexemes[k].Comma? && gate.applies && |parity| == 1 {
        forall m | k < m < |lexemes| ensures !NamesAt(gate, lexemes, m) {
          EndsAtComma(gate, lexemes, k, m);
        }
      } else {
        WalkFinds(gate, lexemes, k + 1, next);
      }
    }
  }

  lemma {:induction false} NamedAtTop(gate: Gate, lexemes: seq<Lexeme>, k: nat, parity: seq<bool>)
    requires k < |lexemes| && StackAt(gate, lexemes, k, parity) && parity != [] && Reached(gate, lexemes, k)
    ensures NamesAt(gate, lexemes, k) <==> lexemes[k].Flag? && Wanted(gate, Top(parity))
  {
    NegationsCapped(gate, lexemes, k, |parity| - 1, |parity|, k);
  }

  lemma {:induction false} EndsAtComma(gate: Gate, lexemes: seq<Lexeme>, k: nat, m: nat)
    requires k < m < |lexemes| && lexemes[k].Comma? && gate.applies && DepthAt(gate, lexemes, k) == 1
    ensures !NamesAt(gate, lexemes, m)
  {
  }

  lemma {:induction false} StaysClosed(gate: Gate, lexemes: seq<Lexeme>, k: nat, m: nat)
    requires k <= m <= |lexemes| && DepthAt(gate, lexemes, k) == 0
    ensures DepthAt(gate, lexemes, m) == 0
    decreases m - k
  {
    if k < m {
      StaysClosed(gate, lexemes, k, m - 1);
    }
  }

  /** How many `not(` enclose the `k`-th lexeme. */
  ghost function Enclosing(gate: Gate, lexemes: seq<Lexeme>, k: nat): nat
    requires k <= |lexemes|
  {
    |NegationsAround(gate, lexemes, k, k)|
  }

  ghost function NegationsAround(gate: Gate, lexemes: seq<Lexeme>, k: nat, count: nat): set<int>
    requires count <= k <= |lexemes|
  {
    set j | 0 <= j < count && lexemes[j].NotOpen? && Encloses(gate, lexemes, j, k)
  }

  lemma {:induction false} NegationsAreEnclosing(gate: Gate, lexemes: seq<Lexeme>, k: nat, count: nat)
    requires count <= k <= |lexemes|
    ensures Negations(gate, lexemes, k, DepthAt(gate, lexemes, k), count) == |NegationsAround(gate, lexemes, k, count)|
  {
    if count > 0 {
      NegationsAreEnclosing(gate, lexemes, k, count - 1);
      OneMoreAround(gate, lexemes, k, count);
      assert Encloses(gate, lexemes, count - 1, k) ==>
        DepthAt(gate, lexemes, k) > DepthAt(gate, lexemes, count - 1);
      hide NegationsAround, Encloses, DepthAt;
    }
  }

  lemma {:induction false} OneMoreAround(gate: Gate, lexemes: seq<Lexeme>, k: nat, count: nat)
    requires 0 < count <= k <= |lexemes|
    ensures |NegationsAround(gate, lexemes, k, count)| == |NegationsAround(gate, lexemes, k, count - 1)|
      + if lexemes[count - 1].NotOpen? && Encloses(gate, lexemes, count - 1, k) then 1 else 0
  {
    hide Encloses;
    var fewer := NegationsAround(gate, lexemes, k, count - 1);
    var one := if lexemes[count - 1].NotOpen? && Encloses(gate, lexemes, count - 1, k) then {count - 1} else {};
    assert NegationsAround(gate, lexemes, k, count) == fewer + one && fewer !! one;
  }

  ghost predicate IsReachedFlag(gate: Gate, lexemes: seq<Lexeme>, k: int) {
    0 <= k < |lexemes| && lexemes[k].Flag? && Reached(gate, lexemes, k)
  }

  /** The polarity is decided correctly: asked for the flag, the walk says yes exactly
      when some occurrence of it inside the predicate is under an even number of
      enclosing `not(`; asked for its negation, an odd number; for either, any. */
  ghost predicate IsDecided(gate: Gate, lexemes: seq<Lexeme>, named: bool) {
    && (gate.polarity && !gate.negated ==>
          (named <==> exists k :: IsReachedFlag(gate, lexemes, k) && Enclosing(gate, lexemes, k) % 2 == 0))
    && (gate.polarity && gate.negated ==>
          (named <==> exists k :: IsReachedFlag(gate, lexemes, k) && Enclosing(gate, lexemes, k) % 2 == 1))
    && (!gate.polarity ==> (named <==> exists k :: IsReachedFlag(gate, lexemes, k)))
  }

  lemma {:induction false} PolarityIsDecided(gate: Gate, lexemes: seq<Lexeme>)
    ensures IsDecided(gate, lexemes, WalkLexemes(gate, lexemes, [false]))
  {
    assert lexemes[0..] == lexemes;
    WalkFinds(gate, lexemes, 0, [false]);
    forall k | 0 <= k < |lexemes|
      ensures NamesAt(gate, lexemes, k) <==>
        IsReachedFlag(gate, lexemes, k) && Wanted(gate, Enclosing(gate, lexemes, k) % 2 == 1)
    {
      NegationsAreEnclosing(gate, lexemes, k, k);
    }
    hide NamesAt, IsReachedFlag, Enclosing, WalkLexemes;
    DecidedByNames(gate, lexemes, WalkLexemes(gate, lexemes, [false]));
  }

  lemma {:induction false} DecidedByNames(gate: Gate, lexemes: seq<Lexeme>, named: bool)
    requires named <==> exists k :: 0 <= k < |lexemes| && NamesAt(gate, lexemes, k)
    requires forall k :: 0 <= k < |lexemes| ==>
      (NamesAt(gate, lexemes, k) <==>
        IsReachedFlag(gate, lexemes, k) && Wanted(gate, Enclosing(gate, lexemes, k) % 2 == 1))
    ensures IsDecided(gate, lexemes, named)
  {
    hide NamesAt, Enclosing, Reached;
    if k :| 0 <= k < |lexemes| && NamesAt(gate, lexemes, k) {
      assert IsReachedFlag(gate, lexemes, k);
    }
    if k :| IsReachedFlag(gate, lexemes, k) && Wanted(gate, Enclosing(gate, lexemes, k) % 2 == 1) {
      assert NamesAt(gate, lexemes, k);
    }
  }
}
