/** Predicates as trees of groups, and what the gate walker of scripts/containment.py
    answers of one: whether the flag stands under an even or an odd number of `not(`. */
module CfgTrees {
  import opened Sequences
  import opened RustScanner
  import opened CfgGate
  import opened CfgLexemes

  /** What a predicate is made of: a lexeme that opens nothing, or a group. */
  datatype Part =
    | Leaf(lexeme: Lexeme)
    | Group(parts: seq<Part>)
    | Negated(gap: string, parts: seq<Part>)

  function Flat(part: Part): seq<Lexeme> {
    match part
    case Leaf(lexeme) => [lexeme]
    case Group(parts) => [Open] + AllFlat(parts) + [Shut(')')]
    case Negated(gap, parts) => [NotOpen(gap)] + AllFlat(parts) + [Shut(')')]
  }

  function AllFlat(parts: seq<Part>): seq<Lexeme> {
    if parts == [] then [] else Flat(parts[0]) + AllFlat(parts[1..])
  }

  /** The leaves within a group neither open one nor close it. */
  predicate IsInner(part: Part) {
    match part
    case Leaf(lexeme) => !lexeme.NotOpen? && !lexeme.Open? && lexeme != Shut(')')
    case Group(parts) => AreInner(parts)
    case Negated(_, parts) => AreInner(parts)
  }

  predicate AreInner(parts: seq<Part>) {
    forall k :: 0 <= k < |parts| ==> IsInner(parts[k])
  }

  /** And those outside every group do not close the predicate, nor end the one a
      `cfg_attr` begins with. */
  predicate IsOuter(gate: Gate, part: Part) {
    match part
    case Leaf(lexeme) =>
      !lexeme.NotOpen? && !lexeme.Open? && lexeme != Shut(gate.closes) && !(gate.applies && lexeme.Comma?)
    case Group(parts) => AreInner(parts)
    case Negated(_, parts) => AreInner(parts)
  }

  predicate AreOuter(gate: Gate, parts: seq<Part>) {
    forall k :: 0 <= k < |parts| ==> IsOuter(gate, parts[k])
  }

  /** The flag stands somewhere in `part` under a number of `not(` that is odd, or
      even. */
  predicate Occurs(part: Part, odd: bool) {
    match part
    case Leaf(lexeme) => lexeme.Flag? && !odd
    case Group(parts) => OccursIn(parts, odd)
    case Negated(_, parts) => OccursIn(parts, !odd)
  }

  predicate OccursIn(parts: seq<Part>, odd: bool) {
    exists k :: 0 <= k < |parts| && Occurs(parts[k], odd)
  }

  /** What the walk answers of `parts`, under a number of `not(` already: that it has the
      flag at the polarity asked for. */
  predicate Answers(gate: Gate, parts: seq<Part>, odd: bool) {
    if !gate.polarity then OccursIn(parts, true) || OccursIn(parts, false)
    else if gate.negated then OccursIn(parts, !odd)
    else OccursIn(parts, odd)
  }

  // --- The walk of a tree -----------------------------------------------

  lemma {:induction false} FirstOccurs(parts: seq<Part>, odd: bool)
    requires parts != []
    ensures OccursIn(parts, odd) <==> Occurs(parts[0], odd) || OccursIn(parts[1..], odd)
  {
    hide Occurs;
    if k :| 0 <= k < |parts| && Occurs(parts[k], odd) {
      assert k > 0 ==> parts[1..][k - 1] == parts[k];
    }
    if k :| 0 <= k < |parts[1..]| && Occurs(parts[1..][k], odd) {
      assert parts[k + 1] == parts[1..][k];
    }
  }

  lemma {:induction false} LoneOccurs(part: Part, odd: bool)
    ensures OccursIn([part], odd) <==> Occurs(part, odd)
  {
    hide Occurs;
    assert [part][0] == part;
  }

  lemma {:induction false} FirstAnswers(gate: Gate, parts: seq<Part>, odd: bool)
    requires parts != []
    ensures Answers(gate, parts, odd) <==> Answers(gate, [parts[0]], odd) || Answers(gate, parts[1..], odd)
  {
    hide OccursIn, Occurs;
    FirstOccurs(parts, true);
    FirstOccurs(parts, false);
    LoneOccurs(parts[0], true);
    LoneOccurs(parts[0], false);
  }

  /** A group answers as its parts do, one `not(` further in where it is one. */
  lemma {:induction false} GroupAnswers(gate: Gate, part: Part, odd: bool)
    requires !part.Leaf?
    ensures Answers(gate, [part], odd) <==> Answers(gate, part.parts, odd != part.Negated?)
  {
    hide OccursIn;
    LoneOccurs(part, true);
    LoneOccurs(part, false);
  }

  lemma {:induction false} LexemeIsStepped(gate: Gate, lexeme: Lexeme, rest: seq<Lexeme>, parity: seq<bool>)
    requires parity != []
    ensures WalkLexemes(gate, [lexeme] + rest, parity) ==
      if lexeme.Flag? then Wanted(gate, Top(parity)) || WalkLexemes(gate, rest, parity)
      else if lexeme.Comma? && gate.applies && |parity| == 1 then false
      else WalkLexemes(gate, rest, NextParity(gate, lexeme, parity))
  {
    assert ([lexeme] + rest)[1..] == rest;
  }

  /** A leaf that closes nothing here is passed, or is the flag. */
  lemma {:induction false} LeafIsWalked(gate: Gate, lexeme: Lexeme, rest: seq<Lexeme>, parity: seq<bool>)
    requires parity != [] && !lexeme.NotOpen? && !lexeme.Open?
    requires if |parity| > 1 then lexeme != Shut(')')
             else lexeme != Shut(gate.closes) && !(gate.applies && lexeme.Comma?)
    ensures WalkLexemes(gate, [lexeme] + rest, parity)
      <==> Answers(gate, [Leaf(lexeme)], Top(parity)) || WalkLexemes(gate, rest, parity)
  {
    hide WalkLexemes, OccursIn;
    LexemeIsStepped(gate, lexeme, rest, parity);
    LoneOccurs(Leaf(lexeme), true);
    LoneOccurs(Leaf(lexeme), false);
  }

  /** A group is walked through, and the walk goes on behind it as it was. */
  lemma {:induction false} GroupIsWalked(gate: Gate, part: Part, rest: seq<Lexeme>, parity: seq<bool>)
    requires parity != [] && !part.Leaf? && AreInner(part.parts)
    ensures WalkLexemes(gate, Flat(part) + rest, parity)
      <==> Answers(gate, [part], Top(parity)) || WalkLexemes(gate, rest, parity)
    decreases part, 0
  {
    hide WalkLexemes, Answers, AreInner, AllFlat;
    var opening := if part.Group? then Open else NotOpen(part.gap);
    var inner := AllFlat(part.parts);
    var within := parity + [Top(parity) != part.Negated?];
    assert Flat(part) == [opening] + inner + [Shut(')')];
    assert Flat(part) + rest == [opening] + (inner + ([Shut(')')] + rest));
    LexemeIsStepped(gate, opening, inner + ([Shut(')')] + rest), parity);
    assert NextParity(gate, opening, parity) == within;
    InnerAreWalked(gate, part.parts, [Shut(')')] + rest, within);
    LexemeIsStepped(gate, Shut(')'), rest, within);
    assert within[..|parity|] == parity;
    GroupAnswers(gate, part, Top(parity));
  }

  lemma {:induction false} InnerAreWalked(gate: Gate, parts: seq<Part>, rest: seq<Lexeme>, parity: seq<bool>)
    requires |parity| > 1 && AreInner(parts)
    ensures WalkLexemes(gate, AllFlat(parts) + rest, parity)
      <==> Answers(gate, parts, Top(parity)) || WalkLexemes(gate, rest, parity)
    decreases parts, 1
  {
    if parts == [] {
      assert AllFlat(parts) + rest == rest;
    } else {
      var first, more := parts[0], parts[1..];
      assert IsInner(first);
      hide WalkLexemes, Answers, Flat;
      Associative(Flat(first), AllFlat(more), rest);
      if first.Leaf? {
        LeafIsWritten(first.lexeme);
        LeafIsWalked(gate, first.lexeme, AllFlat(more) + rest, parity);
      } else {
        GroupIsWalked(gate, first, AllFlat(more) + rest, parity);
      }
      InnerAreWalked(gate, more, rest, parity);
      FirstAnswers(gate, parts, Top(parity));
    }
  }

  lemma {:induction false} LeafIsWritten(lexeme: Lexeme)
    ensures Flat(Leaf(lexeme)) == [lexeme]
  {
  }

  lemma {:induction false} OuterAreWalked(gate: Gate, parts: seq<Part>, rest: seq<Lexeme>, odd: bool)
    requires AreOuter(gate, parts)
    ensures WalkLexemes(gate, AllFlat(parts) + rest, [odd])
      <==> Answers(gate, parts, odd) || WalkLexemes(gate, rest, [odd])
    decreases parts
  {
    if parts == [] {
      assert AllFlat(parts) + rest == rest;
    } else {
      var first, more := parts[0], parts[1..];
      assert IsOuter(gate, first);
      hide WalkLexemes, Answers, Flat;
      Associative(Flat(first), AllFlat(more), rest);
      if first.Leaf? {
        LeafIsWritten(first.lexeme);
        LeafIsWalked(gate, first.lexeme, AllFlat(more) + rest, [odd]);
      } else {
        GroupIsWalked(gate, first, AllFlat(more) + rest, [odd]);
      }
      OuterAreWalked(gate, more, rest, odd);
      FirstAnswers(gate, parts, odd);
    }
  }

  /** A predicate ends at its own delimiter, or a `cfg_attr`'s at its first comma:
      nothing behind counts. */
  predicate Ends(gate: Gate, lexeme: Lexeme) {
    lexeme == Shut(gate.closes) || (gate.applies && lexeme.Comma?)
  }

  lemma {:induction false} NothingBehindCounts(gate: Gate, last: Lexeme, rest: seq<Lexeme>)
    requires Ends(gate, last)
    ensures !WalkLexemes(gate, [last] + rest, [false])
  {
    LexemeIsStepped(gate, last, rest, [false]);
    assert [false][..0] == [];
  }

  /** The main result, of a predicate's tree and whatever is behind it: asked for the
      flag, yes exactly when it stands under an even number of `not(`; asked for its
      negation, an odd number; asked for either, any. */
  lemma {:induction false} TreeIsDecided(
      gate: Gate, before: string, parts: seq<Part>, last: Lexeme, rest: seq<Lexeme>)
    requires Sane(gate.classes) && gate.closes in ")}]" && AreOuter(gate, parts) && Ends(gate, last)
    requires before != "" && !gate.classes.word(before[|before| - 1])
    requires AllPlaced(gate, AllFlat(parts) + ([last] + rest), false)
    ensures var answer := Walk(gate, before + PrintAll(gate, AllFlat(parts) + ([last] + rest)), |before|, [false]);
      && (gate.polarity && !gate.negated ==> (answer <==> OccursIn(parts, false)))
      && (gate.polarity && gate.negated ==> (answer <==> OccursIn(parts, true)))
      && (!gate.polarity ==> (answer <==> OccursIn(parts, false) || OccursIn(parts, true)))
  {
    var lexemes := AllFlat(parts) + ([last] + rest);
    var text := before + PrintAll(gate, lexemes);
    assert text[|before|..] == PrintAll(gate, lexemes);
    hide Walk, WalkLexemes, OccursIn, Sane, PrintAll, AllPlaced, AreOuter;
    LexemesAreWalked(gate, text, |before|, lexemes, [false]);
    OuterAreWalked(gate, parts, [last] + rest, false);
    NothingBehindCounts(gate, last, rest);
  }
}
