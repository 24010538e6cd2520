/** JSON Pointers as crates/kynos-openapi/src/pointer.rs writes them: RFC 6901
    behind a `#`. Strings are sequences of Unicode scalar values, and lengths are
    those of their UTF-8 encodings. */
module JsonPointer {
  import opened Sequences
  import opened Splitting
  import opened Numerals

  // --- UTF-8 ------------------------------------------------------------

  /** The bytes of one character (section 3 of RFC 3629). */
  function Utf8(c: char): (bytes: seq<int>)
    ensures 1 <= |bytes| <= 4
    ensures |bytes| == 1 ==> bytes[0] == c as int
    ensures |bytes| > 1 ==> forall k :: 0 <= k < |bytes| ==> 0x80 <= bytes[k] < 0x100
  {
    var n := c as int;
    if n < 0x80 then [n]
    else if n < 0x800 then [0xC0 + n / 0x40, 0x80 + n % 0x40]
    else if n < 0x1_0000 then [0xE0 + n / 0x1000, 0x80 + n / 0x40 % 0x40, 0x80 + n % 0x40]
    else [0xF0 + n / 0x4_0000, 0x80 + n / 0x1000 % 0x40, 0x80 + n / 0x40 % 0x40, 0x80 + n % 0x40]
  }

  function Bytes(s: string): seq<int> {
    if s == "" then [] else Utf8(s[0]) + Bytes(s[1..])
  }

  lemma {:induction false} BytesConcat(a: string, b: string)
    ensures Bytes(a + b) == Bytes(a) + Bytes(b)
  {
    hide Utf8;
    if a == "" {
      assert a + b == b;
    } else {
      BytesConcat(a[1..], b);
      TailOfConcat(a, b);
      Associative(Utf8(a[0]), Bytes(a[1..]), Bytes(b));
    }
  }

  // --- Escaping ---------------------------------------------------------

  function EscapedChar(c: char): string {
    if c == '~' then "~0" else if c == '/' then "~1" else [c]
  }

  /** A key as a reference token (section 3 of RFC 6901). */
  function Escaped(key: string): string {
    if key == "" then "" else Escaped(key[..|key| - 1]) + EscapedChar(key[|key| - 1])
  }

  /** Appends `key` to `pointer`, escaped. */
  method PushEscaped(pointer: string, key: string) returns (longer: string)
    ensures longer == pointer + Escaped(key)
  {
    longer := pointer;
    for k := 0 to |key|
      invariant longer == pointer + Escaped(key[..k])
    {
      assert key[..k + 1][..k] == key[..k];
      match key[k]
      case '~' => longer := longer + "~0";
      case '/' => longer := longer + "~1";
      case c => longer := longer + [c];
    }
    assert key[..|key|] == key;
  }

  predicate IsEscaped(byte: int) {
    byte == '~' as int || byte == '/' as int
  }

  function CountEscaped(bytes: seq<int>): nat {
    if bytes == [] then 0 else CountEscaped(bytes[1..]) + if IsEscaped(bytes[0]) then 1 else 0
  }

  /** Each escaped byte of `key` adds one to its own bytes. */
  function EscapedLen(key: string): nat {
    |Bytes(key)| + CountEscaped(Bytes(key))
  }

  lemma {:induction false} CountConcat(a: seq<int>, b: seq<int>)
    ensures CountEscaped(a + b) == CountEscaped(a) + CountEscaped(b)
  {
    if a == [] {
      assert a + b == b;
    } else {
      CountConcat(a[1..], b);
      assert (a + b)[1..] == a[1..] + b;
    }
  }

  lemma {:induction false} NoneEscaped(bytes: seq<int>)
    requires forall k :: 0 <= k < |bytes| ==> !IsEscaped(bytes[k])
    ensures CountEscaped(bytes) == 0
  {
    if bytes != [] {
      NoneEscaped(bytes[1..]);
    }
  }

  lemma {:induction false} BytesOne(c: char)
    ensures Bytes([c]) == Utf8(c)
  {
    assert [c][1..] == "";
  }

  lemma {:induction false} EscapedCharLen(c: char)
    ensures |Bytes(EscapedChar(c))| == |Utf8(c)| + CountEscaped(Utf8(c))
  {
    BytesOne(c);
    if c == '~' || c == '/' {
      assert EscapedChar(c)[1..] == [EscapedChar(c)[1]];
      BytesOne(EscapedChar(c)[1]);
      assert Utf8(c) == [c as int] && [c as int][1..] == [];
    } else {
      NoneEscaped(Utf8(c));
    }
  }

  /** The pre-computed length is the length written. */
  lemma {:induction false} EscapedLenIsExact(key: string)
    ensures |Bytes(Escaped(key))| == EscapedLen(key)
  {
    if key != "" {
      var before, c := key[..|key| - 1], key[|key| - 1];
      assert key == before + [c];
      EscapedLenIsExact(before);
      BytesConcat(before, [c]);
      BytesOne(c);
      CountConcat(Bytes(before), Utf8(c));
      BytesConcat(Escaped(before), EscapedChar(c));
      EscapedCharLen(c);
    }
  }

  // --- Indices ----------------------------------------------------------

  /** `ilog10`: how often ten divides down to a single digit. */
  function Ilog10(n: nat): (log: nat)
    requires n > 0
    ensures Pow10(log) <= n < Pow10(log + 1)
  {
    if n < 10 then 0 else Ilog10(n / 10) + 1
  }

  function Digits(index: nat): nat {
    if index == 0 then 1 else Ilog10(index) + 1
  }

  lemma {:induction false} DigitsIsExact(index: nat)
    ensures |Written(index)| == Digits(index)
    ensures forall k :: 0 <= k < |Written(index)| ==> '0' <= Written(index)[k] <= '9'
  {
    if index >= 10 {
      DigitsIsExact(index / 10);
    }
  }

  lemma {:induction false} AsciiLen(s: string)
    requires forall k :: 0 <= k < |s| ==> s[k] as int < 0x80
    ensures |Bytes(s)| == |s|
  {
    if s != "" {
      AsciiLen(s[1..]);
    }
  }

  // --- Locations --------------------------------------------------------

  datatype Token = Key(key: string) | Index(index: nat)

  /** A location, as a chain from the token it ends in back to the document. */
  datatype At = Root | Child(parent: At, token: Token) {
    function Member(key: string): At {
      Child(this, Key(key))
    }

    function Element(index: nat): At {
      Child(this, Index(index))
    }
  }

  function TokenText(token: Token): string {
    match token
    case Key(key) => key
    case Index(index) => Written(index)
  }

  /** The token texts, from the document down. */
  function Tokens(at: At): seq<string> {
    match at
    case Root => []
    case Child(parent, token) => Tokens(parent) + [TokenText(token)]
  }

  /** What a pointer to these tokens reads (sections 3 and 4 of RFC 6901). */
  function PointerTo(tokens: seq<string>): string {
    if tokens == [] then "#" else PointerTo(tokens[..|tokens| - 1]) + "/" + Escaped(tokens[|tokens| - 1])
  }

  /** How long the pointer is, before it is written. */
  function Len(at: At): nat {
    match at
    case Root => 1
    case Child(parent, Key(key)) => 1 + EscapedLen(key) + Len(parent)
    case Child(parent, Index(index)) => 1 + Digits(index) + Len(parent)
  }

  method Render(at: At, pointer: string) returns (longer: string)
    ensures longer == pointer + PointerTo(Tokens(at))
    decreases at
  {
    hide Escaped, Written;
    match at
    case Root => longer := pointer + "#";
    case Child(parent, token) =>
      longer := Render(parent, pointer);
      PointerToMember(Tokens(parent), TokenText(token));
      Regrouped(pointer, PointerTo(Tokens(parent)), "/", Escaped(TokenText(token)));
      match token {
        case Key(key) => longer := PushEscaped(longer + "/", key);
        case Index(index) =>
          WrittenNeedsNoEscape(index);
          longer := longer + "/" + Written(index);
      }
  }

  lemma {:induction false} PointerToMember(tokens: seq<string>, last: string)
    ensures PointerTo(tokens + [last]) == PointerTo(tokens) + "/" + Escaped(last)
  {
    assert (tokens + [last])[..|tokens|] == tokens;
  }

  lemma {:induction false} UnescapedAsIs(s: string)
    requires forall k :: 0 <= k < |s| ==> s[k] != '~' && s[k] != '/'
    ensures Escaped(s) == s
  {
    if s != "" {
      UnescapedAsIs(s[..|s| - 1]);
    }
  }

  lemma {:induction false} WrittenNeedsNoEscape(index: nat)
    ensures Escaped(Written(index)) == Written(index)
  {
    DigitsIsExact(index);
    UnescapedAsIs(Written(index));
  }

  /** `At::len` is exactly the byte length `render` writes, for every chain. */
  lemma {:induction false} LenIsExact(at: At)
    ensures |Bytes(PointerTo(Tokens(at)))| == Len(at)
  {
    match at
    case Root => BytesOne('#');
    case Child(parent, token) =>
      LenIsExact(parent);
      var text := TokenText(token);
      assert Tokens(at)[..|Tokens(at)| - 1] == Tokens(parent);
      BytesConcat(PointerTo(Tokens(parent)) + "/", Escaped(text));
      BytesConcat(PointerTo(Tokens(parent)), "/");
      BytesOne('/');
      match token {
        case Key(key) => EscapedLenIsExact(key);
        case Index(index) =>
          WrittenNeedsNoEscape(index);
          DigitsIsExact(index);
          AsciiLen(Written(index));
      }
  }

  // --- Reading a pointer back -------------------------------------------

  /** `s` with each `~` before `digit` and the digit after it replaced by `with`. */
  function Replaced(s: string, digit: char, with: char): string {
    if s == "" then ""
    else if |s| >= 2 && s[0] == '~' && s[1] == digit then [with] + Replaced(s[2..], digit, with)
    else [s[0]] + Replaced(s[1..], digit, with)
  }

  /** `~1` first and then `~0` (section 4 of RFC 6901). */
  function Unescaped(token: string): string {
    Replaced(Replaced(token, '1', '/'), '0', '~')
  }

  /** The token texts a pointer is read as. */
  function Read(pointer: string): seq<string> {
    if |pointer| < 2 then []
    else
      var parts := Split(pointer[2..], '/');
      seq(|parts|, k requires 0 <= k < |parts| => Unescaped(parts[k]))
  }

  /** Escaped from the front, with only `~` escaped. */
  function TildesEscaped(key: string): string {
    if key == "" then "" else (if key[0] == '~' then "~0" else [key[0]]) + TildesEscaped(key[1..])
  }

  lemma {:induction false} EscapedFront(key: string)
    requires key != ""
    ensures Escaped(key) == EscapedChar(key[0]) + Escaped(key[1..])
  {
    hide EscapedChar;
    var n := |key| - 1;
    if n == 0 {
      assert key[..0] == "" && key[1..] == "";
    } else {
      EscapedFront(key[..n]);
      var middle := key[1..n];
      assert key[..n][1..] == middle && key[1..][..n - 1] == middle;
      Associative(EscapedChar(key[0]), Escaped(middle), EscapedChar(key[n]));
    }
  }

  lemma {:induction false} SlashFirst(c: char, rest: string)
    ensures Replaced(EscapedChar(c) + rest, '1', '/') == (if c == '~' then "~0" else [c]) + Replaced(rest, '1', '/')
  {
    var text := EscapedChar(c) + rest;
    if c == '~' {
      assert text[1..] == "0" + rest && ("0" + rest)[1..] == rest;
    } else if c == '/' {
      assert text[2..] == rest;
    } else {
      assert text[1..] == rest;
    }
  }

  lemma {:induction false} SlashesFirst(key: string)
    ensures Replaced(Escaped(key), '1', '/') == TildesEscaped(key)
  {
    if key != "" {
      hide Escaped, EscapedChar, Replaced;
      EscapedFront(key);
      SlashesFirst(key[1..]);
      SlashFirst(key[0], Escaped(key[1..]));
    } else {
      assert Escaped("") == "";
    }
  }

  lemma {:induction false} TildesSecond(key: string)
    ensures Replaced(TildesEscaped(key), '0', '~') == key
  {
    if key != "" {
      TildesSecond(key[1..]);
      var e, rest := TildesEscaped(key), TildesEscaped(key[1..]);
      assert if key[0] == '~' then e[2..] == rest else e[1..] == rest;
    }
  }

  /** Unescaping in RFC 6901's order undoes escaping. */
  lemma {:induction false} UnescapeInverts(key: string)
    ensures Unescaped(Escaped(key)) == key
  {
    SlashesFirst(key);
    TildesSecond(key);
  }

  lemma {:induction false} EscapedHasNoSlash(key: string)
    ensures '/' !in Escaped(key)
  {
    if key != "" {
      EscapedHasNoSlash(key[..|key| - 1]);
    }
  }

  function EscapedAll(tokens: seq<string>): seq<string> {
    seq(|tokens|, k requires 0 <= k < |tokens| => Escaped(tokens[k]))
  }

  lemma {:induction false} PointerSplits(tokens: seq<string>)
    requires tokens != []
    ensures |PointerTo(tokens)| >= 2 && Split(PointerTo(tokens)[2..], '/') == EscapedAll(tokens)
  {
    hide Escaped, Split;
    var before, last := tokens[..|tokens| - 1], tokens[|tokens| - 1];
    var head, tail := PointerTo(before), Escaped(last);
    EscapedHasNoSlash(last);
    assert EscapedAll(tokens) == EscapedAll(before) + [tail];
    if before == [] {
      SplitOfOne(tail, '/');
      assert ("#" + "/" + tail)[2..] == tail;
    } else {
      PointerSplits(before);
      assert (head + "/" + tail)[2..] == head[2..] + "/" + tail;
      SplitAtSeparator(head[2..], tail, '/');
      SplitOfOne(tail, '/');
    }
  }

  /** Splitting a pointer at `/` and unescaping each part recovers the token texts
      it was written from. */
  lemma {:induction false} ReadInvertsPointer(tokens: seq<string>)
    ensures Read(PointerTo(tokens)) == tokens
  {
    hide Escaped, Split;
    if tokens != [] {
      PointerSplits(tokens);
      forall k | 0 <= k < |tokens| ensures Unescaped(EscapedAll(tokens)[k]) == tokens[k] {
        UnescapeInverts(tokens[k]);
      }
    }
  }

  /** Two locations render to one pointer exactly when their token texts agree. */
  lemma {:induction false} PointersTellApart(a: seq<string>, b: seq<string>)
    ensures PointerTo(a) == PointerTo(b) <==> a == b
  {
    ReadInvertsPointer(a);
    ReadInvertsPointer(b);
  }

  // --- To the character -------------------------------------------------

  predicate Continues(byte: int) {
    0x80 <= byte < 0xC0
  }

  /** Section 3 of RFC 3629: a character is what its bytes hold, in as few as can. */
  lemma {:induction false} BytesHoldTheCharacter(c: char)
    ensures var bytes, n := Utf8(c), c as int;
      match |bytes| {
        case 1 => bytes[0] == n < 0x80
        case 2 =>
          && 0xC0 <= bytes[0] < 0xE0 && Continues(bytes[1])
          && n == (bytes[0] - 0xC0) * 0x40 + (bytes[1] - 0x80) && n >= 0x80
        case 3 =>
          && 0xE0 <= bytes[0] < 0xF0 && Continues(bytes[1]) && Continues(bytes[2])
          && n == (bytes[0] - 0xE0) * 0x1000 + (bytes[1] - 0x80) * 0x40 + (bytes[2] - 0x80) && n >= 0x800
        case 4 =>
          && 0xF0 <= bytes[0] < 0xF8 && Continues(bytes[1]) && Continues(bytes[2]) && Continues(bytes[3])
          && n == (bytes[0] - 0xF0) * 0x4_0000 + (bytes[1] - 0x80) * 0x1000 + (bytes[2] - 0x80) * 0x40
               + (bytes[3] - 0x80)
          && n >= 0x1_0000
        case _ => false
      }
  {
    SixBitsAtATime(c as int);
  }

  lemma {:induction false} SixBitsAtATime(n: nat)
    ensures n == n / 0x40 * 0x40 + n % 0x40
    ensures n / 0x40 == n / 0x1000 * 0x40 + n / 0x40 % 0x40
    ensures n / 0x1000 == n / 0x4_0000 * 0x40 + n / 0x1000 % 0x40
  {
    assert n / 0x1000 == n / 0x40 / 0x40;
    assert n / 0x4_0000 == n / 0x1000 / 0x40;
  }

  /** The pointer to the key `/a~b` of `paths`. */
  lemma {:induction false} SlashAndTildeAreEscaped()
    ensures PointerTo(["paths", "/a~b"]) == "#/paths/~1a~0b"
  {
    var tokens := ["paths", "/a~b"];
    assert tokens[..1] == ["paths"] && ["paths"][..0] == [];
    PathsNeedsNoEscape("paths");
    SlashAndTilde("/a~b");
    assert PointerTo(["paths"]) == "#" + "/" + "paths";
    assert PointerTo(tokens) == "#/paths" + "/" + "~1a~0b";
  }

  lemma {:induction false} PathsNeedsNoEscape(key: string)
    requires key == "paths"
    ensures Escaped(key) == key
  {
    UnescapedAsIs(key);
  }

  lemma {:induction false} SlashAndTilde(key: string)
    requires key == "/a~b"
    ensures Escaped(key) == "~1a~0b"
  {
    assert key[..3] == "/a~" && "/a~"[..2] == "/a" && "/a"[..1] == "/" && "/"[..0] == "";
    assert Escaped("/") == "~1" && Escaped("/a") == "~1a" && Escaped("/a~") == "~1a~0";
  }
}
