/** The tokens of a `use` tree, as `USE_TOKEN` of scripts/containment.py finds them. */
module UseTokens {
  import opened Sequences

  /** What `USE_TOKEN` matches: a word, `::`, or one of `{` `}` `,` `*`. */
  datatype Token = Word(word: string) | PathSep | Open | Close | Comma | Star

  /** `\w`. */
  type WordClass = char -> bool

  ghost predicate IsSane(word: WordClass) {
    forall c :: c in ":{},*" ==> !word(c)
  }

  function WordLength(text: string, word: WordClass): (length: nat)
    ensures length <= |text| && (text != "" && word(text[0]) ==> length > 0)
    ensures length < |text| ==> !word(text[length])
    ensures forall k :: 0 <= k < length ==> word(text[k])
  {
    if text == "" || !word(text[0]) then 0 else 1 + WordLength(text[1..], word)
  }

  /** `USE_TOKEN.findall`: what matches nowhere is passed over. */
  function Lexed(text: string, word: WordClass): seq<Token> {
    if text == "" then []
    else if word(text[0]) then
      var length := WordLength(text, word);
      [Word(text[..length])] + Lexed(text[length..], word)
    else if |text| >= 2 && text[0] == ':' && text[1] == ':' then [PathSep] + Lexed(text[2..], word)
    else if text[0] == '{' then [Open] + Lexed(text[1..], word)
    else if text[0] == '}' then [Close] + Lexed(text[1..], word)
    else if text[0] == ',' then [Comma] + Lexed(text[1..], word)
    else if text[0] == '*' then [Star] + Lexed(text[1..], word)
    else Lexed(text[1..], word)
  }

  // --- As written -------------------------------------------------------

  /** A token, behind what is passed over. */
  datatype Spaced = Spaced(gap: string, token: Token)

  function Text(token: Token): string {
    match token
    case Word(word) => word
    case PathSep => "::"
    case Open => "{"
    case Close => "}"
    case Comma => ","
    case Star => "*"
  }

  function Write(tokens: seq<Spaced>, tail: string): string {
    if tokens == [] then tail else tokens[0].gap + (Text(tokens[0].token) + Write(tokens[1..], tail))
  }

  function TokensOf(tokens: seq<Spaced>): seq<Token> {
    if tokens == [] then [] else [tokens[0].token] + TokensOf(tokens[1..])
  }

  predicate IsGap(gap: string, word: WordClass) {
    forall k :: 0 <= k < |gap| ==> !word(gap[k]) && gap[k] !in ":{},*"
  }

  predicate IsWord(text: string, word: WordClass) {
    text != "" && forall k :: 0 <= k < |text| ==> word(text[k])
  }

  /** The tokens stand apart: something stands between two words. */
  predicate AreApart(tokens: seq<Spaced>, afterWord: bool, word: WordClass) {
    tokens == [] || (
      && IsGap(tokens[0].gap, word)
      && (tokens[0].token.Word? ==>
            IsWord(tokens[0].token.word, word) && (afterWord ==> tokens[0].gap != ""))
      && AreApart(tokens[1..], tokens[0].token.Word?, word))
  }

  lemma {:induction false} GapIsPassed(gap: string, rest: string, word: WordClass)
    requires IsGap(gap, word)
    ensures Lexed(gap + rest, word) == Lexed(rest, word)
  {
    if gap == "" {
      assert gap + rest == rest;
    } else {
      TailOfConcat(gap, rest);
      GapIsPassed(gap[1..], rest, word);
      assert gap[0] !in ":{},*";
    }
  }

  lemma {:induction false} WordEnds(text: string, rest: string, word: WordClass)
    requires (forall k :: 0 <= k < |text| ==> word(text[k])) && (rest != "" ==> !word(rest[0]))
    ensures WordLength(text + rest, word) == |text|
  {
    if text != "" {
      TailOfConcat(text, rest);
      WordEnds(text[1..], rest, word);
    } else {
      assert text + rest == rest;
    }
  }

  lemma {:induction false} WordIsLexed(text: string, rest: string, word: WordClass)
    requires IsWord(text, word) && (rest != "" ==> !word(rest[0]))
    ensures Lexed(text + rest, word) == [Word(text)] + Lexed(rest, word)
  {
    WordEnds(text, rest, word);
    assert (text + rest)[..|text|] == text && (text + rest)[|text|..] == rest;
  }

  lemma {:induction false} SignIsLexed(token: Token, rest: string, word: WordClass)
    requires IsSane(word) && !token.Word?
    ensures Lexed(Text(token) + rest, word) == [token] + Lexed(rest, word)
  {
    var text := Text(token) + rest;
    assert text[|Text(token)|..] == rest;
    assert text[0] in ":{},*";
  }

  lemma {:induction false} StartsNoWord(tokens: seq<Spaced>, tail: string, word: WordClass)
    requires IsSane(word) && AreApart(tokens, true, word) && IsGap(tail, word)
    ensures Write(tokens, tail) != "" ==> !word(Write(tokens, tail)[0])
  {
    if tokens != [] && tokens[0].gap == "" {
      assert Text(tokens[0].token)[0] in ":{},*";
    }
  }

  /** The tokens written are the tokens found, whatever is passed over between. */
  lemma {:induction false} TokensAreFound(tokens: seq<Spaced>, afterWord: bool, tail: string, word: WordClass)
    requires IsSane(word) && AreApart(tokens, afterWord, word) && IsGap(tail, word)
    ensures Lexed(Write(tokens, tail), word) == TokensOf(tokens)
  {
    hide Lexed, IsGap, IsWord;
    if tokens == [] {
      GapIsPassed(tail, "", word);
      assert tail + "" == tail;
      NothingIsLexed(word);
    } else {
      var token, rest := tokens[0].token, Write(tokens[1..], tail);
      TokensAreFound(tokens[1..], token.Word?, tail, word);
      GapIsPassed(tokens[0].gap, Text(token) + rest, word);
      if token.Word? {
        StartsNoWord(tokens[1..], tail, word);
        WordIsLexed(token.word, rest, word);
      } else {
        SignIsLexed(token, rest, word);
      }
    }
  }

  lemma {:induction false} NothingIsLexed(word: WordClass)
    ensures Lexed("", word) == []
  {
  }
}
