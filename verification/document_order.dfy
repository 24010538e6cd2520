/** The order crates/kynos-openapi/src/visit.rs calls its hooks in, by location: what is
    written under one place is called before what is written under a later one. */
module DocumentOrder {
  import opened DocumentWalk
  import opened Options
  import opened Dictionaries

  /** Everything called at or below `first` comes before everything at or below
      `second`. */
  ghost predicate Precedes(events: seq<Event>, first: seq<string>, second: seq<string>) {
    forall i, j :: 0 <= i < |events| && 0 <= j < |events| && first <= events[i].at && second <= events[j].at ==> i < j
  }

  /** Something may be at or below both. */
  predicate Meet(a: seq<string>, b: seq<string>) {
    a <= b || b <= a
  }

  lemma {:induction false} MeetBelow(at: seq<string>, tokens: seq<string>, place: seq<string>, where_: seq<string>)
    requires at + tokens <= where_ && at + place <= where_
    ensures Meet(tokens, place)
  {
    var rest := where_[|at|..];
    assert tokens == (at + tokens)[|at|..] && place == (at + place)[|at|..];
    assert where_[..|at + tokens|] == at + tokens && where_[..|at + place|] == at + place;
    assert rest[..|tokens|] == tokens && rest[..|place|] == place;
  }

  /** Only earlier children have to do with `first` than with `second`. */
  ghost predicate AreOrdered(children: seq<Below>, first: seq<string>, second: seq<string>) {
    forall i, j ::
      0 <= i < |children| && 0 <= j < |children| && Meet(children[i].tokens, first)
      && Meet(children[j].tokens, second) ==>
        i < j
  }

  /** Nothing is called at or below `place`. */
  ghost predicate IsQuiet(events: seq<Event>, place: seq<string>) {
    forall i :: 0 <= i < |events| ==> !(place <= events[i].at)
  }

  lemma {:induction false} QuietUnlessMet(
      node: Node, at: seq<string>, tokens: seq<string>, visits: Visits, place: seq<string>)
    requires !Meet(tokens, place)
    ensures IsQuiet(Walk(node, at + tokens, visits), at + place)
  {
    var events := Walk(node, at + tokens, visits);
    WalkStaysBelow(node, at + tokens, visits);
    hide Walk, Meet;
    forall i | 0 <= i < |events| ensures !(at + place <= events[i].at) {
      if at + place <= events[i].at {
        MeetBelow(at, tokens, place, events[i].at);
      }
    }
  }

  lemma {:induction false} QuietConcat(before: seq<Event>, last: seq<Event>, place: seq<string>)
    requires IsQuiet(before, place) && IsQuiet(last, place)
    ensures IsQuiet(before + last, place)
  {
  }

  lemma {:induction false} AllQuiet(children: seq<Below>, at: seq<string>, visits: Visits, place: seq<string>)
    requires forall k :: 0 <= k < |children| ==> !Meet(children[k].tokens, place)
    ensures IsQuiet(WalkAll(children, at, visits), at + place)
    decreases |children|
  {
    if children != [] {
      var n := |children| - 1;
      AllQuiet(children[..n], at, visits, place);
      QuietUnlessMet(children[n].node, at, children[n].tokens, visits, place);
      hide Walk, IsQuiet, Meet;
      QuietConcat(WalkAll(children[..n], at, visits), Walk(children[n].node, at + children[n].tokens, visits), at
        + place);
    }
  }

  lemma {:induction false} PrecedesConcat(
      before: seq<Event>, last: seq<Event>, first: seq<string>, second: seq<string>)
    requires Precedes(before, first, second) && IsQuiet(last, first)
    ensures Precedes(before + last, first, second)
  {
    var events := before + last;
    assert forall i :: |before| <= i < |events| ==> events[i] == last[i - |before|];
  }

  lemma {:induction false} QuietPrecedes(events: seq<Event>, first: seq<string>, second: seq<string>)
    requires IsQuiet(events, second)
    ensures Precedes(events, first, second)
  {
  }

  /** Children are walked in their order. */
  lemma {:induction false} ChildrenPrecede(
      children: seq<Below>, at: seq<string>, visits: Visits, first: seq<string>, second: seq<string>)
    requires AreOrdered(children, first, second)
    ensures Precedes(WalkAll(children, at, visits), at + first, at + second)
    decreases |children|
  {
    if children == [] {
      QuietPrecedes([], at + first, at + second);
    } else {
      var n := |children| - 1;
      hide Walk, Precedes, IsQuiet, Meet;
      if Meet(children[n].tokens, first) {
        AllQuiet(children, at, visits, second);
        QuietPrecedes(WalkAll(children, at, visits), at + first, at + second);
      } else {
        assert AreOrdered(children[..n], first, second);
        ChildrenPrecede(children[..n], at, visits, first, second);
        QuietUnlessMet(children[n].node, at, children[n].tokens, visits, first);
        PrecedesConcat(WalkAll(children[..n], at, visits), Walk(children[n].node, at + children[n].tokens, visits),
          at + first, at + second);
      }
    }
  }

  /** Children that are apart are in order by their own places. */
  lemma {:induction false} ApartIsOrdered(children: seq<Below>, i: nat, j: nat)
    requires Apart(children) && i < j < |children|
    ensures AreOrdered(children, children[i].tokens, children[j].tokens)
  {
  }

  // --- The document -----------------------------------------------------

  function PlacesOf<T>(section: seq<string>, dict: Map<T>): (places: seq<seq<string>>)
    ensures |places| == |dict|
  {
    seq(|dict|, k requires 0 <= k < |dict| => section + [dict[k].key])
  }

  /** The places under a document, in order: its paths, its webhooks, and the two kinds
      of component. */
  function Places(document: Document): seq<seq<string>> {
    PlacesOf(["paths"], document.paths) + PlacesOf(["webhooks"], document.webhooks)
    + PlacesOf(["components", "pathItems"], document.pathItems)
    + PlacesOf(["components", "callbacks"], document.callbacks)
  }

  lemma {:induction false} PlacesAreBelow(document: Document)
    ensures |Places(document)| == |DocumentBelow(document)|
    ensures forall k :: 0 <= k < |Places(document)| ==> Places(document)[k] == DocumentBelow(document)[k].tokens
  {
  }

  /** What is written under an earlier place of the document is called first. */
  lemma {:induction false} DocumentIsInOrder(document: Document, visits: Visits, i: nat, j: nat)
    requires UniqueDocumentKeys(document) && i < j < |Places(document)|
    ensures Precedes(WalkAll(DocumentBelow(document), [], visits), Places(document)[i], Places(document)[j])
  {
    var children := DocumentBelow(document);
    PlacesAreBelow(document);
    DocumentIsApart(document);
    hide DocumentBelow, Places, Apart;
    ApartIsOrdered(children, i, j);
    ChildrenPrecede(children, [], visits, children[i].tokens, children[j].tokens);
    assert [] + children[i].tokens == children[i].tokens && [] + children[j].tokens == children[j].tokens;
  }

  // --- Path Items -------------------------------------------------------

  /** The fields of a Path Item, in the order of `Method::all`. */
  const FIELDS: seq<string> := ["get", "put", "post", "delete", "options", "head", "patch", "trace", "query"]

  lemma {:induction false} FieldIsRanked(m: Method)
    ensures Rank(m) < 9 && FIELDS[Rank(m)] == FieldName(m)
  {
  }

  lemma {:induction false} FieldsDiffer(i: nat, j: nat)
    requires i < 9 && j < 9 && i != j
    ensures FIELDS[i] != FIELDS[j]
  {
    assert FIELDS[i][0] != FIELDS[j][0] || FIELDS[i][1] != FIELDS[j][1];
  }

  lemma {:induction false} FieldIsNoSection(i: nat)
    requires i < 9
    ensures FIELDS[i] != "additionalOperations"
  {
    assert |FIELDS[i]| < |"additionalOperations"|;
  }

  lemma {:induction false} MeetAtHead(a: seq<string>, b: seq<string>)
    requires Meet(a, b) && a != [] && b != []
    ensures a[0] == b[0] && (|a| > 1 && |b| > 1 ==> a[1] == b[1])
  {
  }

  lemma {:induction false} TokensBelow(item: PathItem, k: nat)
    requires k < |OperationsBelow(item)|
    ensures var fixed, tokens := Operations(item, 9), OperationsBelow(item)[k].tokens;
      if k < |fixed| then tokens == [FieldName(fixed[k].0)]
      else k - |fixed| < |item.additional| && tokens == ["additionalOperations", item.additional[k - |fixed|].key]
  {
  }

  /** Which children have to do with a field, and which with an additional operation. */
  lemma {:induction false} FieldMeets(item: PathItem, i: nat, k: nat)
    requires i < 9 && k < |OperationsBelow(item)| && Meet(OperationsBelow(item)[k].tokens, [FIELDS[i]])
    ensures k < |Operations(item, 9)| && Rank(Operations(item, 9)[k].0) == i
  {
    var fixed := Operations(item, 9);
    hide Operations, Rank, FieldName, Meet;
    var tokens := OperationsBelow(item)[k].tokens;
    TokensBelow(item, k);
    MeetAtHead(tokens, [FIELDS[i]]);
    if k < |fixed| {
      FieldIsRanked(fixed[k].0);
      if Rank(fixed[k].0) != i {
        FieldsDiffer(Rank(fixed[k].0), i);
      }
    } else {
      FieldIsNoSection(i);
    }
  }

  lemma {:induction false} AdditionalMeets(item: PathItem, i: nat, k: nat)
    requires i < |item.additional| && DistinctKeys(item.additional) && k < |OperationsBelow(item)|
    requires Meet(OperationsBelow(item)[k].tokens, ["additionalOperations", item.additional[i].key])
    ensures k == |Operations(item, 9)| + i
  {
    var fixed := Operations(item, 9);
    hide Operations, Rank, FieldName, Meet;
    var tokens := OperationsBelow(item)[k].tokens;
    TokensBelow(item, k);
    MeetAtHead(tokens, ["additionalOperations", item.additional[i].key]);
    if k < |fixed| {
      FieldIsRanked(fixed[k].0);
      FieldIsNoSection(Rank(fixed[k].0));
    }
  }

  /** A Path Item's operations are called in the order of its fields, and before its
      additional ones, which come in their own. */
  lemma {:induction false} ItemIsInOrder(item: PathItem, at: seq<string>, visits: Visits, i: nat, j: nat)
    requires DistinctKeys(item.additional)
    ensures var events := WalkAll(OperationsBelow(item), at, visits);
      && (i < j < 9 ==> Precedes(events, at + [FIELDS[i]], at + [FIELDS[j]]))
      && (i < 9 && j < |item.additional| ==>
            Precedes(events, at + [FIELDS[i]], at + ["additionalOperations", item.additional[j].key]))
      && (i < j < |item.additional| ==>
            Precedes(events, at + ["additionalOperations", item.additional[i].key],
              at + ["additionalOperations", item.additional[j].key]))
  {
    var children := OperationsBelow(item);
    OperationsAreInOrder(item, 9);
    hide Operations, OperationsBelow, Meet, Precedes, WalkAll, FieldName, Rank;
    if i < j < 9 {
      forall m, n | 0 <= m < |children| && 0 <= n < |children|
          && Meet(children[m].tokens, [FIELDS[i]]) && Meet(children[n].tokens, [FIELDS[j]])
        ensures m < n
      {
        FieldMeets(item, i, m);
        FieldMeets(item, j, n);
      }
      ChildrenPrecede(children, at, visits, [FIELDS[i]], [FIELDS[j]]);
    }
    if j < |item.additional| {
      var second := ["additionalOperations", item.additional[j].key];
      if i < 9 {
        forall m, n | 0 <= m < |children| && 0 <= n < |children|
            && Meet(children[m].tokens, [FIELDS[i]]) && Meet(children[n].tokens, second)
          ensures m < n
        {
          FieldMeets(item, i, m);
          AdditionalMeets(item, j, n);
        }
        ChildrenPrecede(children, at, visits, [FIELDS[i]], second);
      }
      if i < j {
        var first := ["additionalOperations", item.additional[i].key];
        forall m, n | 0 <= m < |children| && 0 <= n < |children|
            && Meet(children[m].tokens, first) && Meet(children[n].tokens, second)
          ensures m < n
        {
          AdditionalMeets(item, i, m);
          AdditionalMeets(item, j, n);
        }
        ChildrenPrecede(children, at, visits, first, second);
      }
    }
  }

  // --- Operations and callbacks -----------------------------------------

  /** An operation's callbacks, and a callback's entries, are called in their order. */
  lemma {:induction false} CallbacksAreInOrder(
      operation: Operation, callback: Callback, at: seq<string>, visits: Visits, i: nat, j: nat)
    requires DistinctKeys(operation.callbacks) && DistinctKeys(callback.items) && i < j
    ensures var callbacks := operation.callbacks;
      j < |callbacks| ==>
        Precedes(WalkAll(CallbacksBelow(["callbacks"], callbacks), at, visits),
          at + ["callbacks", callbacks[i].key], at + ["callbacks", callbacks[j].key])
    ensures j < |callback.items| ==>
      Precedes(WalkAll(EntriesBelow(callback), at, visits), at + [callback.items[i].key], at + [callback.items[j].key])
  {
    var callbacks, items := operation.callbacks, callback.items;
    CallbacksAreApart(["callbacks"], callbacks);
    SectionIsApart(EntriesBelow(callback), []);
    hide Precedes, WalkAll;
    if j < |callbacks| {
      var children := CallbacksBelow(["callbacks"], callbacks);
      ApartIsOrdered(children, i, j);
      ChildrenPrecede(children, at, visits, children[i].tokens, children[j].tokens);
      assert children[i].tokens == ["callbacks", callbacks[i].key]
        && children[j].tokens == ["callbacks", callbacks[j].key];
    }
    if j < |items| {
      ApartIsOrdered(EntriesBelow(callback), i, j);
      ChildrenPrecede(EntriesBelow(callback), at, visits, [items[i].key], [items[j].key]);
    }
  }
}
