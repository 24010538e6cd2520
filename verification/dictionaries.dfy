/** Dictionaries that keep the order their keys came in. */
module Dictionaries {
  import opened Options

  datatype Entry<+T> = Entry(key: string, value: T)

  type Map<+T> = seq<Entry<T>>

  function Keys<T>(dict: Map<T>): set<string> {
    set k | 0 <= k < |dict| :: dict[k].key
  }

  predicate DistinctKeys<T>(dict: Map<T>) {
    forall j, k :: 0 <= j < k < |dict| ==> dict[j].key != dict[k].key
  }

  function Lookup<T>(dict: Map<T>, key: string): (value: Option<T>)
    ensures value.Some? <==> key in Keys(dict)
  {
    if dict == [] then None
    else if dict[0].key == key then Some(dict[0].value)
    else
      assert Keys(dict) == {dict[0].key} + Keys(dict[1..]) by { KeysOfTail(dict); }
      Lookup(dict[1..], key)
  }

  lemma {:induction false} KeysOfTail<T>(dict: Map<T>)
    requires dict != []
    ensures Keys(dict) == {dict[0].key} + Keys(dict[1..])
  {
    assert forall k :: 1 <= k < |dict| ==> dict[k] == dict[1..][k - 1];
    assert forall k :: 0 <= k < |dict[1..]| ==> dict[1..][k] == dict[k + 1];
  }

  /** `dict` with `key` bound to `value`, in its old place where it has one. */
  function Updated<T>(dict: Map<T>, key: string, value: T): Map<T> {
    if dict == [] then [Entry(key, value)]
    else if dict[0].key == key then [Entry(key, value)] + dict[1..]
    else [dict[0]] + Updated(dict[1..], key, value)
  }

  lemma {:induction false} UpdatedIsAppended<T>(dict: Map<T>, key: string, value: T)
    requires key !in Keys(dict)
    ensures Updated(dict, key, value) == dict + [Entry(key, value)]
  {
    if dict != [] {
      KeysOfTail(dict);
      UpdatedIsAppended(dict[1..], key, value);
    }
  }

  lemma {:induction false} EntryIsFound<T>(dict: Map<T>, k: nat)
    requires k < |dict| && DistinctKeys(dict)
    ensures Lookup(dict, dict[k].key) == Some(dict[k].value)
  {
    if k > 0 {
      EntryIsFound(dict[1..], k - 1);
    }
  }
}
