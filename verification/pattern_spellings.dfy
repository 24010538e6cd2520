/** The spellings of single characters ECMA-262 reads (section 22.2.1 of its 15th
    edition), listed, and the replacement texts of crates/kynos-openapi/src/pattern.rs,
    to the character. */
module PatternSpellings {
  import opened PatternSyntax
  import opened PatternDialects
  import opened PatternRewrite
  import opened PatternMeaning
  import opened Options

  // --- Characters -------------------------------------------------------

  /** Written as itself: outside a class, anything but a syntax character; in one,
      anything but a backslash and a closing bracket. */
  lemma {:induction false} PlainCharactersAre(c: char)
    ensures EcmaCharacter([c], false) == if c in "^$\\.*+?()[]{}|" then None else Some(c)
    ensures EcmaCharacter([c], true) == if c in "\\]" then None else Some(c)
  {
  }

  /** Behind a backslash: five control characters, NUL, the syntax characters and the
      slash as themselves, and in a class the backspace and the hyphen; nothing else. */
  lemma {:induction false} EscapesAre(e: char, inClass: bool)
    ensures EcmaCharacter(['\\', e], inClass) ==
      match e {
        case 't' => Some('\U{0009}')
        case 'n' => Some('\U{000A}')
        case 'v' => Some('\U{000B}')
        case 'f' => Some('\U{000C}')
        case 'r' => Some('\U{000D}')
        case '0' => Some('\U{0000}')
        case 'b' => if inClass then Some('\U{0008}') else None
        case '-' => if inClass then Some('-') else None
        case _ => if e in "^$\\.*+?()[]{}|/" then Some(e) else None
      }
  {
  }

  /** A hex digit, in either case. */
  lemma {:induction false} HexDigitsAre(c: char, k: nat)
    requires k < 16
    ensures IsHexDigit(c) && HexDigitValue(c) == k <==> c == "0123456789abcdef"[k] || c == "0123456789ABCDEF"[k]
  {
  }

  /** `\xHH` is the character of that number. */
  lemma {:induction false} TwoHexDigitsAre(a: char, b: char, inClass: bool)
    requires IsHexDigit(a) && IsHexDigit(b)
    ensures EcmaCharacter(['\\', 'x', a, b], inClass) == Some((16 * HexDigitValue(a) + HexDigitValue(b)) as char)
  {
    var written := ['\\', 'x', a, b];
    assert written[2..] == [a, b];
    HexTwo(a, b);
    hide HexValue, HexDigitValue;
  }

  /** So is `\uHHHH`, but for the surrogates. */
  lemma {:induction false} FourHexDigitsAre(a: char, b: char, c: char, d: char, inClass: bool)
    requires IsHexDigit(a) && IsHexDigit(b) && IsHexDigit(c) && IsHexDigit(d)
    ensures var n := 4096 * HexDigitValue(a) + 256 * HexDigitValue(b) + 16 * HexDigitValue(c) + HexDigitValue(d);
      EcmaCharacter(['\\', 'u', a, b, c, d], inClass) == if 0xD800 <= n < 0xE000 then None else Some(n as char)
  {
    var written := ['\\', 'u', a, b, c, d];
    assert written[2..] == [a, b, c, d];
    HexFour(a, b, c, d);
    assert written[2] == a;
    hide HexValue, HexDigitValue, EcmaEscape;
  }

  // --- Replacements -----------------------------------------------------

  /** `DIGIT`, `NOT_DIGIT`, `WORD` and `NOT_WORD`. */
  lemma {:induction false} DigitTextsAre()
    ensures Text(PerlConstruct(Digit, false)) == "[0-9]" && Text(PerlConstruct(Digit, true)) == "[^0-9]"
  {
    hide PartText;
  }

  lemma {:induction false} WordTextsAre()
    ensures Text(PerlConstruct(Word, false)) == "[0-9A-Za-z_]" && Text(PerlConstruct(Word, true)) == "[^0-9A-Za-z_]"
  {
    hide PartText;
    assert PerlText(Word) == "0-9A-Za-z_";
  }

  /** `DOT`. */
  lemma {:induction false} DotTextIs()
    ensures Text(DotConstruct) == "[^\\n\\r\\x{2028}\\x{2029}]"
  {
    hide PerlText;
    assert Braced("2028") == "\\x{2028}" && Braced("2029") == "\\x{2029}";
    assert "\\n" + "\\r" + Braced("2028") + Braced("2029") == "\\n\\r\\x{2028}\\x{2029}";
  }

  /** `WORD_BOUNDARY`, `NOT_WORD_BOUNDARY` and `NUL`. */
  lemma {:induction false} OtherTextsAre()
    ensures Text(BoundaryConstruct(false)) == "(?-u:\\b)" && Text(BoundaryConstruct(true)) == "(?-u:\\B)"
    ensures Text(NulConstruct) == "\\x00"
  {
    hide PerlText, Braced;
  }

  lemma {:induction false} ControlsAre()
    ensures PartText(Controls) == "\\t\\n\\x0B\\x0C"
  {
    assert Fixed("0B") == "\\x0B" && Fixed("0C") == "\\x0C";
  }

  lemma {:induction false} LatinIs()
    ensures PartText(Latin) == "\\r \\xA0\\x{1680}"
  {
    assert Fixed("A0") == "\\xA0" && Braced("1680") == "\\x{1680}";
  }

  lemma {:induction false} WideIs()
    ensures PartText(Wide) == "\\x{2000}-\\x{200A}" + "\\x{2028}" + "\\x{2029}" + "\\x{202F}"
  {
    assert Braced("2000") + "-" + Braced("200A") == "\\x{2000}-\\x{200A}";
    assert Braced("2028") == "\\x{2028}" && Braced("2029") == "\\x{2029}" && Braced("202F") == "\\x{202F}";
  }

  lemma {:induction false} OtherIs()
    ensures PartText(Other) == "\\x{205F}" + "\\x{3000}" + "\\x{FEFF}"
  {
    assert Braced("205F") == "\\x{205F}" && Braced("3000") == "\\x{3000}" && Braced("FEFF") == "\\x{FEFF}";
  }

  /** `SPACE` and `NOT_SPACE`. */
  lemma {:induction false} SpaceTextsAre(controls: string, latin: string, wide: string, other: string)
    requires controls == "\\t\\n\\x0B\\x0C" && latin == "\\r \\xA0\\x{1680}"
    requires wide == "\\x{2000}-\\x{200A}" + "\\x{2028}" + "\\x{2029}" + "\\x{202F}"
    requires other == "\\x{205F}" + "\\x{3000}" + "\\x{FEFF}"
    ensures Text(PerlConstruct(White, false)) == "[" + (controls + latin + wide + other) + "]"
    ensures Text(PerlConstruct(White, true)) == "[^" + (controls + latin + wide + other) + "]"
  {
    ControlsAre();
    LatinIs();
    WideIs();
    OtherIs();
    hide PartText;
  }
}
