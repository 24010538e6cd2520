/** The gate walker of scripts/containment.py reads a predicate's characters as the
    lexemes it is written in. */
module CfgLexemes {
  import opened Sequences
  import opened RustScanner
  import opened CfgGate
  import P = RustPieces
  import opened Options

  // --- Spaces -----------------------------------------------------------

  lemma {:induction false} SpacesShift(text: string, i: nat, rest: string, k: nat, classes: Classes)
    requires P.From(text, i, rest) && k <= |rest|
    ensures SkipSpaces(text, i + k, classes) == i + SkipSpaces(rest, k, classes)
    decreases |rest| - k
  {
    P.FromHead(text, i, rest);
    if k < |rest| && classes.space(rest[k]) {
      SpacesShift(text, i, rest, k + 1, classes);
    }
  }

  lemma {:induction false} SpacesAreSkipped(text: string, i: nat, gap: string, rest: string, classes: Classes)
    requires P.From(text, i, gap + rest) && AllSpace(gap, classes)
    requires rest != "" && !classes.space(rest[0])
    ensures SkipSpaces(text, i, classes) == i + |gap|
    decreases |gap|
  {
    P.FromHead(text, i, gap + rest);
    if gap != "" {
      assert gap == [gap[0]] + gap[1..];
      Associative([gap[0]], gap[1..], rest);
      P.FromParts(text, i, [gap[0]], gap[1..] + rest);
      SpacesAreSkipped(text, i + 1, gap[1..], rest, classes);
    } else {
      assert text[i] == rest[0];
    }
  }

  // --- One lexeme -------------------------------------------------------

  lemma {:induction false} NegationReads(gate: Gate, text: string, i: nat, gap: string, rest: string)
    requires Sane(gate.classes) && P.From(text, i, ("not" + (gap + "(")) + rest)
    requires AllSpace(gap, gate.classes) && !WordBefore(text, i, gate.classes)
    ensures i < |text| && NegationEnd(text, i, gate.classes) == Some(i + 4 + |gap|)
  {
    hide P.From, SkipSpaces;
    Associative("not", gap + "(", rest);
    Associative(gap, "(", rest);
    P.FromParts(text, i, "not", gap + ("(" + rest));
    P.FromParts(text, i + 3, gap, "(" + rest);
    assert ("(" + rest)[0] == '(';
    SpacesAreSkipped(text, i + 3, gap, "(" + rest, gate.classes);
    P.FromHead(text, i + 3 + |gap|, "(" + rest);
  }

  lemma {:induction false} FlagReads(gate: Gate, text: string, i: nat, before: string, after: string, rest: string)
    requires Sane(gate.classes) && P.From(text, i, Print(gate, Flag(before, after)) + rest)
    requires AllSpace(before, gate.classes) && AllSpace(after, gate.classes) && !WordBefore(text, i, gate.classes)
    ensures i < |text| && NegationEnd(text, i, gate.classes) == None
    ensures FlagEnd(text, i, gate) == Some(i + |Print(gate, Flag(before, after))|)
  {
    hide P.From, NegationEnd, SkipSpaces, StartsAt;
    var quote := Quote(gate.flag);
    var tail := after + (quote + rest);
    FlagIsParts(before, after, quote, rest);
    P.FromParts(text, i, "feature", before + ("=" + tail));
    NotHere(text, i, gate.classes);
    EqualsFound(gate, text, i + 7, before, tail);
    P.FromParts(text, i + 7, before, "=" + tail);
    P.FromParts(text, i + 7 + |before|, "=", tail);
    QuoteFound(gate, text, i + 8 + |before|, after, rest);
  }

  lemma {:induction false} FlagIsParts(before: string, after: string, quote: string, rest: string)
    ensures ("feature" + (before + ("=" + (after + quote)))) + rest
      == "feature" + (before + ("=" + (after + (quote + rest))))
  {
    Associative("feature", before + ("=" + (after + quote)), rest);
    Associative(before, "=" + (after + quote), rest);
    Associative("=", after + quote, rest);
    Associative(after, quote, rest);
  }

  lemma {:induction false} EqualsFound(gate: Gate, text: string, i: nat, before: string, tail: string)
    requires Sane(gate.classes) && P.From(text, i, before + ("=" + tail)) && AllSpace(before, gate.classes)
    ensures i + |before| < |text| && SkipSpaces(text, i, gate.classes) == i + |before| && text[i + |before|] == '='
  {
    assert ("=" + tail)[0] == '=';
    assert '=' in "()[]{},=\"'#";
    SpacesAreSkipped(text, i, before, "=" + tail, gate.classes);
    P.FromParts(text, i, before, "=" + tail);
    P.FromHead(text, i + |before|, "=" + tail);
  }

  lemma {:induction false} QuoteFound(gate: Gate, text: string, i: nat, after: string, rest: string)
    requires Sane(gate.classes) && P.From(text, i, after + (Quote(gate.flag) + rest)) && AllSpace(after, gate.classes)
    ensures SkipSpaces(text, i, gate.classes) == i + |after| && StartsAt(text, i + |after|, Quote(gate.flag))
  {
    var quote := Quote(gate.flag);
    assert (quote + rest)[0] == '"';
    assert '"' in "()[]{},=\"'#";
    SpacesAreSkipped(text, i, after, quote + rest, gate.classes);
    P.FromParts(text, i, after, quote + rest);
    P.FromParts(text, i + |after|, quote, rest);
  }

  lemma {:induction false} StartsWithHead(text: string, i: nat, part: string)
    requires StartsAt(text, i, part) && part != ""
    ensures i < |text| && text[i] == part[0]
  {
    assert text[i..i + |part|][0] == text[i];
  }

  /** A text that starts with another letter starts with no `not`. */
  lemma {:induction false} NotHere(text: string, i: nat, classes: Classes)
    requires i < |text| && text[i] != 'n'
    ensures NegationEnd(text, i, classes) == None
  {
    if StartsAt(text, i, "not") {
      StartsWithHead(text, i, "not");
    }
  }

  lemma {:induction false} NoFlagHere(text: string, i: nat, gate: Gate)
    requires i < |text| && text[i] != 'f'
    ensures FlagEnd(text, i, gate) == None
  {
    if StartsAt(text, i, "feature") {
      StartsWithHead(text, i, "feature");
    }
  }

  /** A character that is no word character starts neither pattern. */
  lemma {:induction false} NoPattern(text: string, i: nat, gate: Gate)
    requires i < |text| && Sane(gate.classes) && !gate.classes.word(text[i])
    ensures NegationEnd(text, i, gate.classes) == None && FlagEnd(text, i, gate) == None
  {
    NotHere(text, i, gate.classes);
    NoFlagHere(text, i, gate);
  }

  lemma {:induction false} NoLiteral(text: string, i: nat)
    requires i < |text| && text[i] != 'r' && text[i] != '"' && text[i] != '\''
    ensures LiteralEnd(text, i) == None
  {
  }

  // --- Words ------------------------------------------------------------

  /** Where a run of word characters stands, it is what the text continues with. */
  lemma {:induction false} StandsIn(text: string, i: nat, word: string, rest: string, name: string, classes: Classes)
    requires P.From(text, i, word + rest) && StartsAt(text, i, name)
    requires forall k :: 0 <= k < |name| ==> classes.word(name[k])
    requires rest != "" ==> !classes.word(rest[0])
    ensures |name| <= |word| && word[..|name|] == name
  {
    P.FromHead(text, i, word + rest);
    forall k | 0 <= k < |name| ensures text[i + k] == name[k] {
      assert text[i..i + |name|][k] == name[k];
    }
    assert rest != "" ==> text[i + |word|] == (word + rest)[|word|] == rest[0];
    assert |name| <= |word|;
    forall k | 0 <= k < |name| ensures word[k] == name[k] {
      assert text[i + k] == (word + rest)[k] == word[k];
    }
  }

  lemma {:induction false} WordStartsNoNegation(gate: Gate, text: string, i: nat, word: string, rest: string)
    requires Sane(gate.classes) && P.From(text, i, word + rest) && PlainWord(gate, word, rest)
    ensures i < |text| && NegationEnd(text, i, gate.classes) == None
  {
    P.FromHead(text, i, word + rest);
    if StartsAt(text, i, "not") {
      StandsIn(text, i, word, rest, "not", gate.classes);
      if |word| == 3 {
        P.FromParts(text, i, word, rest);
        NotAlone(gate, text, i, rest);
      } else {
        assert text[i + 3] == (word + rest)[3] == word[3];
        InWordNoNegation(gate, text, i);
      }
    }
  }

  lemma {:induction false} NotAlone(gate: Gate, text: string, i: nat, rest: string)
    requires i + 3 <= |text| && P.From(text, i + 3, rest)
    requires var j := SkipSpaces(rest, 0, gate.classes); !(j < |rest| && rest[j] == '(')
    ensures i < |text| ==> NegationEnd(text, i, gate.classes) == None
  {
    hide SkipSpaces, StartsAt, P.From;
    P.FromHead(text, i + 3, rest);
    SpacesShift(text, i + 3, rest, 0, gate.classes);
  }

  /** A word that goes on after `not` opens nothing. */
  lemma {:induction false} InWordNoNegation(gate: Gate, text: string, i: nat)
    requires Sane(gate.classes) && i + 3 < |text| && gate.classes.word(text[i + 3])
    ensures NegationEnd(text, i, gate.classes) == None
  {
    hide StartsAt;
  }

  lemma {:induction false} WordStartsNoFlag(gate: Gate, text: string, i: nat, word: string, rest: string)
    requires Sane(gate.classes) && P.From(text, i, word + rest) && PlainWord(gate, word, rest)
    ensures i < |text| && FlagEnd(text, i, gate) == None
  {
    P.FromHead(text, i, word + rest);
    if StartsAt(text, i, "feature") {
      StandsIn(text, i, word, rest, "feature", gate.classes);
      if |word| == 7 {
        assert word == "feature";
        P.FromParts(text, i, word, rest);
        FeatureAlone(gate, text, i, rest);
      } else {
        assert text[i + 7] == (word + rest)[7] == word[7];
      }
    }
  }

  lemma {:induction false} FeatureAlone(gate: Gate, text: string, i: nat, rest: string)
    requires i + 7 <= |text| && P.From(text, i + 7, rest) && !FlagFollows(gate, rest)
    ensures FlagEnd(text, i, gate) == None
  {
    hide SkipSpaces, StartsAt, P.From, Quote;
    P.FromHead(text, i + 7, rest);
    SpacesShift(text, i + 7, rest, 0, gate.classes);
    var j := SkipSpaces(rest, 0, gate.classes);
    if j < |rest| && rest[j] == '=' {
      SpacesShift(text, i + 7, rest, j + 1, gate.classes);
      StartsShift(text, i + 7, rest, SkipSpaces(rest, j + 1, gate.classes), Quote(gate.flag));
    }
  }

  lemma {:induction false} StartsShift(text: string, i: nat, rest: string, k: nat, part: string)
    requires P.From(text, i, rest)
    ensures StartsAt(text, i + k, part) <==> StartsAt(rest, k, part)
  {
    P.FromHead(text, i, rest);
    if i + k + |part| <= |text| {
      assert rest[k..k + |part|] == text[i + k..i + k + |part|];
    }
  }

  /** Each character of a word is passed over by itself. */
  lemma {:induction false} WordIsPassed(
      gate: Gate, text: string, i: nat, word: string, rest: string, parity: seq<bool>, k: nat)
    requires Sane(gate.classes) && P.From(text, i, word + rest) && PlainWord(gate, word, rest) && k <= |word|
    requires parity != [] && gate.closes in ")}]"
    requires k == 0 ==> !WordBefore(text, i, gate.classes)
    ensures Walk(gate, text, i + k, parity) == Walk(gate, text, i + |word|, parity)
    decreases |word| - k
  {
    hide NegationEnd, FlagEnd, LiteralEnd;
    if k < |word| {
      P.FromHead(text, i, word + rest);
      var at := i + k;
      assert text[at] == (word + rest)[k] == word[k];
      if k == 0 {
        WordStartsNoNegation(gate, text, i, word, rest);
        WordStartsNoFlag(gate, text, i, word, rest);
      } else {
        assert text[at - 1] == (word + rest)[k - 1] == word[k - 1];
        InsideAWord(gate, text, at);
      }
      WordHasNoLiteral(gate, text, i, word, rest, k);
      WordIsPassed(gate, text, i, word, rest, parity, k + 1);
    }
  }

  lemma {:induction false} InsideAWord(gate: Gate, text: string, i: nat)
    requires 0 < i < |text| && gate.classes.word(text[i]) && gate.classes.word(text[i - 1])
    ensures NegationEnd(text, i, gate.classes) == None && FlagEnd(text, i, gate) == None
  {
  }

  lemma {:induction false} WordHasNoLiteral(gate: Gate, text: string, i: nat, word: string, rest: string, k: nat)
    requires Sane(gate.classes) && P.From(text, i, word + rest) && PlainWord(gate, word, rest) && k < |word|
    ensures i + k < |text| && LiteralEnd(text, i + k) == None
  {
    P.FromHead(text, i, word + rest);
    var at := i + k;
    assert text[at] == (word + rest)[k] == word[k];
    if at + 1 < |text| {
      assert text[at + 1] == (word + rest)[k + 1];
      assert k + 1 < |word| || rest[0] == text[at + 1];
      assert text[at + 1] != '#' && text[at + 1] != '"';
    }
  }

  // --- Literals ---------------------------------------------------------

  lemma {:induction false} QuotedIsPassed(text: string, j: nat, body: string, rest: string)
    requires P.From(text, j, body + ("\"" + rest)) && '"' !in body && '\\' !in body
    ensures StringEnd(text, j) == j + |body| + 1
    decreases |body|
  {
    P.FromHead(text, j, body + ("\"" + rest));
    if body == "" {
      assert text[j] == ("\"" + rest)[0];
    } else {
      assert text[j] == (body + ("\"" + rest))[0] == body[0];
      assert body == [body[0]] + body[1..];
      Associative([body[0]], body[1..], "\"" + rest);
      P.FromParts(text, j, [body[0]], body[1..] + ("\"" + rest));
      QuotedIsPassed(text, j + 1, body[1..], rest);
    }
  }

  lemma {:induction false} QuotedEnds(text: string, i: nat, body: string, rest: string)
    requires P.From(text, i, ("\"" + body + "\"") + rest) && '"' !in body && '\\' !in body
    ensures i < |text| && text[i] == '"' && LiteralEnd(text, i) == Some(i + |body| + 2)
  {
    Associative("\"" + body, "\"", rest);
    Associative("\"", body, "\"" + rest);
    P.FromParts(text, i, "\"", body + ("\"" + rest));
    QuotedIsPassed(text, i + 1, body, rest);
  }

  // --- All of them ------------------------------------------------------

  /** The walk from `i` does with the lexeme there what the walk over lexemes does. */
  ghost predicate WalksAs(gate: Gate, text: string, i: nat, lexeme: Lexeme, parity: seq<bool>)
    requires parity != []
  {
    var j := i + |Print(gate, lexeme)|;
    Walk(gate, text, i, parity) ==
    match lexeme
    case Flag(_, _) => Wanted(gate, Top(parity)) || Walk(gate, text, j, parity)
    case Comma => !(gate.applies && |parity| == 1) && Walk(gate, text, j, parity)
    case _ => Walk(gate, text, j, NextParity(gate, lexeme, parity))
  }

  lemma {:induction false} PatternIsWalked(
      gate: Gate, text: string, i: nat, lexeme: Lexeme, rest: string, parity: seq<bool>)
    requires Sane(gate.classes) && parity != [] && (lexeme.NotOpen? || lexeme.Flag?)
    requires P.From(text, i, Print(gate, lexeme) + rest)
      && Placed(gate, lexeme, WordBefore(text, i, gate.classes), rest)
    ensures WalksAs(gate, text, i, lexeme, parity)
  {
    hide NegationEnd, FlagEnd, LiteralEnd, Sane, P.From;
    match lexeme
    case NotOpen(gap) => NegationReads(gate, text, i, gap, rest);
    case Flag(before, after) => FlagReads(gate, text, i, before, after, rest);
  }

  lemma {:induction false} SymbolIsWalked(
      gate: Gate, text: string, i: nat, lexeme: Lexeme, rest: string, parity: seq<bool>)
    requires Sane(gate.classes) && gate.closes in ")}]" && parity != []
      && (lexeme.Open? || lexeme.Shut? || lexeme.Comma?)
    requires P.From(text, i, Print(gate, lexeme) + rest)
      && Placed(gate, lexeme, WordBefore(text, i, gate.classes), rest)
    ensures WalksAs(gate, text, i, lexeme, parity)
  {
    hide NegationEnd, FlagEnd, LiteralEnd, Sane, P.From;
    Symbol(gate, text, i, Print(gate, lexeme)[0], rest);
    assert [Print(gate, lexeme)[0]] == Print(gate, lexeme);
  }

  lemma {:induction false} RunIsWalked(
      gate: Gate, text: string, i: nat, lexeme: Lexeme, rest: string, parity: seq<bool>)
    requires Sane(gate.classes) && gate.closes in ")}]" && parity != []
      && (lexeme.Quoted? || lexeme.Word? || lexeme.Other?)
    requires P.From(text, i, Print(gate, lexeme) + rest)
      && Placed(gate, lexeme, WordBefore(text, i, gate.classes), rest)
    ensures WalksAs(gate, text, i, lexeme, parity)
  {
    hide NegationEnd, FlagEnd, LiteralEnd, Sane, P.From;
    P.FromHead(text, i, Print(gate, lexeme) + rest);
    match lexeme
    case Word(word) =>
      WordIsPassed(gate, text, i, word, rest, parity, 0);
      assert i + 0 == i;
    case Quoted(body) =>
      QuotedEnds(text, i, body, rest);
      NotAWord(gate, '"');
      NoPattern(text, i, gate);
    case Other(c) =>
      assert text[i + 0] == ([c] + rest)[0] == c;
      NoPattern(text, i, gate);
      LetterIsWord(gate);
      NoLiteral(text, i);
  }

  /** One lexeme is walked as one. */
  lemma {:induction false} LexemeIsWalked(
      gate: Gate, text: string, i: nat, lexeme: Lexeme, rest: string, parity: seq<bool>)
    requires Sane(gate.classes) && gate.closes in ")}]" && parity != []
    requires P.From(text, i, Print(gate, lexeme) + rest)
      && Placed(gate, lexeme, WordBefore(text, i, gate.classes), rest)
    ensures WalksAs(gate, text, i, lexeme, parity)
  {
    hide Walk, WalksAs, Sane, P.From, Print, Placed;
    if lexeme.NotOpen? || lexeme.Flag? {
      PatternIsWalked(gate, text, i, lexeme, rest, parity);
    } else if lexeme.Open? || lexeme.Shut? || lexeme.Comma? {
      SymbolIsWalked(gate, text, i, lexeme, rest, parity);
    } else {
      RunIsWalked(gate, text, i, lexeme, rest, parity);
    }
  }

  lemma {:induction false} NotAWord(gate: Gate, c: char)
    requires Sane(gate.classes) && c in "()[]{},=\"'#"
    ensures !gate.classes.word(c)
  {
  }

  lemma {:induction false} LetterIsWord(gate: Gate)
    requires Sane(gate.classes)
    ensures gate.classes.word('r')
  {
  }

  lemma {:induction false} Symbol(gate: Gate, text: string, i: nat, c: char, rest: string)
    requires Sane(gate.classes) && P.From(text, i, [c] + rest) && c in "()}],"
    ensures i < |text| && text[i] == c
    ensures NegationEnd(text, i, gate.classes) == None && FlagEnd(text, i, gate) == None && LiteralEnd(text, i) == None
  {
    P.FromHead(text, i, [c] + rest);
    assert c in "()[]{},=\"'#";
    NotAWord(gate, c);
    NoPattern(text, i, gate);
    NoLiteral(text, i);
  }

  lemma {:induction false} LexemesAreWalked(gate: Gate, text: string, i: nat, lexemes: seq<Lexeme>, parity: seq<bool>)
    requires Sane(gate.classes) && gate.closes in ")}]"
    requires P.From(text, i, PrintAll(gate, lexemes)) && AllPlaced(gate, lexemes, WordBefore(text, i, gate.classes))
    ensures Walk(gate, text, i, parity) == WalkLexemes(gate, lexemes, parity)
    decreases |lexemes|
  {
    hide Sane, P.From, Print, Placed, Walk;
    if lexemes == [] || parity == [] {
      WalkStops(gate, text, i, lexemes, parity);
    } else {
      var lexeme, rest := lexemes[0], PrintAll(gate, lexemes[1..]);
      var j := i + |Print(gate, lexeme)|;
      P.FromParts(text, i, Print(gate, lexeme), rest);
      LexemeIsWalked(gate, text, i, lexeme, rest, parity);
      WordBeforeNext(gate, text, i, lexeme, rest);
      LexemesAreWalked(gate, text, j, lexemes[1..], parity);
      LexemesAreWalked(gate, text, j, lexemes[1..], NextParity(gate, lexeme, parity));
    }
  }

  lemma {:induction false} WalkStops(gate: Gate, text: string, i: nat, lexemes: seq<Lexeme>, parity: seq<bool>)
    requires P.From(text, i, PrintAll(gate, lexemes)) && (lexemes == [] || parity == [])
    ensures !Walk(gate, text, i, parity) && !WalkLexemes(gate, lexemes, parity)
  {
    P.FromHead(text, i, PrintAll(gate, lexemes));
  }

  lemma {:induction false} WordBeforeNext(gate: Gate, text: string, i: nat, lexeme: Lexeme, rest: string)
    requires Sane(gate.classes) && P.From(text, i, Print(gate, lexeme) + rest)
    requires Placed(gate, lexeme, WordBefore(text, i, gate.classes), rest)
    ensures WordBefore(text, i + |Print(gate, lexeme)|, gate.classes) == lexeme.Word?
  {
    var written := Print(gate, lexeme);
    P.FromHead(text, i, written + rest);
    assert written != "";
    assert text[i + |written| - 1] == (written + rest)[|written| - 1] == written[|written| - 1];
  }

  /** The main result: `Gate.names`, over the characters of a predicate, decides
      whether the flag occurs in it under enclosing `not(` of the parity asked for. */
  lemma {:induction false} GateDecidesPolarity(gate: Gate, before: string, lexemes: seq<Lexeme>)
    requires Sane(gate.classes) && gate.closes in ")}]"
    requires before != "" && !gate.classes.word(before[|before| - 1]) && AllPlaced(gate, lexemes, false)
    ensures IsDecided(gate, lexemes, Walk(gate, before + PrintAll(gate, lexemes), |before|, [false]))
  {
    var text := before + PrintAll(gate, lexemes);
    assert text[|before|..] == PrintAll(gate, lexemes);
    LexemesAreWalked(gate, text, |before|, lexemes, [false]);
    PolarityIsDecided(gate, lexemes);
  }
}
