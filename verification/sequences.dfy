/** Facts about concatenation that the other modules' inductions step by. */
module Sequences {

  lemma {:induction false} Associative<T>(a: seq<T>, b: seq<T>, c: seq<T>)
    ensures (a + b) + c == a + (b + c)
  {
  }

  lemma {:induction false} Regrouped<T>(a: seq<T>, b: seq<T>, c: seq<T>, d: seq<T>)
    ensures ((a + b) + c) + d == (a + b) + (c + d)
    ensures ((a + b) + c) + d == a + ((b + c) + d)
  {
  }

  /** Taking the first element off a concatenation, and the last. */
  lemma {:induction false} TailOfConcat<T>(a: seq<T>, b: seq<T>)
    requires a != []
    ensures (a + b)[0] == a[0] && (a + b)[1..] == a[1..] + b
  {
  }

  lemma {:induction false} InitOfConcat<T>(a: seq<T>, b: seq<T>)
    requires b != []
    ensures (a + b)[|a + b| - 1] == b[|b| - 1] && (a + b)[..|a + b| - 1] == a + b[..|b| - 1]
  {
  }

  /** `part` is what stands in `whole` from `at` on. */
  ghost predicate Holds<T>(whole: seq<T>, at: nat, part: seq<T>) {
    at + |part| <= |whole| && whole[at..at + |part|] == part
  }

  lemma {:induction false} HoldsParts<T>(whole: seq<T>, at: nat, a: seq<T>, b: seq<T>)
    requires Holds(whole, at, a + b)
    ensures Holds(whole, at, a) && Holds(whole, at + |a|, b)
  {
    assert whole[at..at + |a|] == (a + b)[..|a|];
    assert whole[at + |a|..at + |a| + |b|] == (a + b)[|a|..];
  }
}
