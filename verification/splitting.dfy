/** Splitting at a separator, joining with one, and trimming. */
module Splitting {
  import opened Sequences

  /** The pieces between separators, at least one. */
  function Split<T(==)>(text: seq<T>, separator: T): (pieces: seq<seq<T>>)
    ensures pieces != []
    ensures pieces[0] == [] <==> (text == [] || text[0] == separator)
  {
    if text == [] then [[]]
    else
      var pieces := Split(text[1..], separator);
      if text[0] == separator then [[]] + pieces else [[text[0]] + pieces[0]] + pieces[1..]
  }

  lemma {:induction false} SplitAtSeparator<T>(first: seq<T>, rest: seq<T>, separator: T)
    ensures Split(first + [separator] + rest, separator) == Split(first, separator) + Split(rest, separator)
  {
    var text := first + [separator] + rest;
    if first == [] {
      assert text[1..] == rest;
    } else {
      assert text[1..] == first[1..] + [separator] + rest;
      SplitAtSeparator(first[1..], rest, separator);
    }
  }

  lemma {:induction false} SplitOfOne<T>(text: seq<T>, separator: T)
    requires separator !in text
    ensures Split(text, separator) == [text]
  {
    if text != [] {
      SplitOfOne(text[1..], separator);
      assert [text[0]] + text[1..] == text;
    }
  }

  function Joined<T>(pieces: seq<seq<T>>, separator: T): seq<T>
    requires pieces != []
  {
    if |pieces| == 1 then pieces[0] else pieces[0] + [separator] + Joined(pieces[1..], separator)
  }

  /** Splitting inverts joining pieces that hold no separator. */
  lemma {:induction false} SplitInvertsJoining<T>(pieces: seq<seq<T>>, separator: T)
    requires pieces != [] && forall k :: 0 <= k < |pieces| ==> separator !in pieces[k]
    ensures Split(Joined(pieces, separator), separator) == pieces
  {
    SplitOfOne(pieces[0], separator);
    if |pieces| > 1 {
      SplitInvertsJoining(pieces[1..], separator);
      SplitAtSeparator(pieces[0], Joined(pieces[1..], separator), separator);
    }
  }

  // --- Trimming ---------------------------------------------------------

  function TrimStart(text: string, drop: char -> bool): string {
    if text != "" && drop(text[0]) then TrimStart(text[1..], drop) else text
  }

  function TrimEnd(text: string, drop: char -> bool): string {
    if text != "" && drop(text[|text| - 1]) then TrimEnd(text[..|text| - 1], drop) else text
  }

  /** `trim_matches`. */
  function Trim(text: string, drop: char -> bool): string {
    TrimEnd(TrimStart(text, drop), drop)
  }

  predicate AllDropped(text: string, drop: char -> bool) {
    forall k :: 0 <= k < |text| ==> drop(text[k])
  }

  lemma {:induction false} TrimStartPads(pad: string, core: string, drop: char -> bool)
    requires AllDropped(pad, drop) && (core != "" ==> !drop(core[0]))
    ensures TrimStart(pad + core, drop) == core
  {
    if pad == "" {
      assert pad + core == core;
    } else {
      TailOfConcat(pad, core);
      TrimStartPads(pad[1..], core, drop);
    }
  }

  lemma {:induction false} TrimEndPads(core: string, pad: string, drop: char -> bool)
    requires AllDropped(pad, drop) && (core != "" ==> !drop(core[|core| - 1]))
    ensures TrimEnd(core + pad, drop) == core
  {
    if pad == "" {
      assert core + pad == core;
    } else {
      InitOfConcat(core, pad);
      TrimEndPads(core, pad[..|pad| - 1], drop);
    }
  }

  /** Trimming takes the pads off a text that neither starts nor ends with one. */
  lemma {:induction false} TrimPads(before: string, core: string, after: string, drop: char -> bool)
    requires AllDropped(before, drop) && AllDropped(after, drop)
    requires core != "" ==> !drop(core[0]) && !drop(core[|core| - 1])
    ensures Trim(before + core + after, drop) == core
  {
    if core == "" {
      assert before + core + after == (before + after) + "";
      TrimStartPads(before + after, "", drop);
    } else {
      Associative(before, core, after);
      TrimStartPads(before, core + after, drop);
      TrimEndPads(core, after, drop);
    }
  }
}
