/** The hooks crates/kynos-openapi/src/visit.rs calls at each location, spelled out by
    what the document holds there, and the field names its locations are made of. */
module DocumentCalls {
  import opened DocumentWalk
  import opened DocumentResolution
  import opened Options
  import opened Dictionaries

  /** The object a location points at, unless a declined Path Item is on the way. */
  ghost function Reached(document: Document, visits: Visits, at: seq<string>): Option<Node> {
    if IsSkipped(DocumentValue(document), [], visits, at) then None
    else AsNode(Resolve(DocumentValue(document), at))
  }

  /** The main result, call by call: a Path Item is called with its `paths` key or none,
      an operation twice and with the Path Item that holds it, an inline callback once,
      a callback's entry before the Path Item or the reference it holds, and a reference
      with its target. Nothing else is called anywhere. */
  lemma {:induction false} CallsAt(document: Document, visits: Visits, at: seq<string>)
    requires UniqueDocumentKeys(document)
    ensures EventsAt(WalkAll(DocumentBelow(document), [], visits), at) ==
      match Reached(document, visits, at) {
        case None => []
        case Some(ItemNode(item, path)) => [PathItemEvent(at, item, path)]
        case Some(OperationNode(holder, operation)) =>
          [OperationEvent(at, holder, operation), OperationWalkedEvent(at, operation)]
        case Some(CallbackNode(Item(callback))) => [CallbackEvent(at, callback)]
        case Some(CallbackNode(Ref(uri))) => [ReferenceEvent(at, uri)]
        case Some(EntryNode(expression, Item(item))) =>
          [CallbackEntryEvent(at, expression), PathItemEvent(at, item, None)]
        case Some(EntryNode(expression, Ref(uri))) =>
          [CallbackEntryEvent(at, expression), ReferenceEvent(at, uri)]
      }
  {
    WalkIsResolved(document, visits, at);
    hide EventsAt, WalkAll, DocumentBelow, IsSkipped, Resolve;
  }

  /** `event` is a call the object is there for. */
  predicate IsCallOf(event: Event, node: Node) {
    match event
    case PathItemEvent(_, item, path) =>
      node == ItemNode(item, path) || (path == None && node.EntryNode? && node.entry == Item(item))
    case OperationEvent(_, holder, operation) => node == OperationNode(holder, operation)
    case OperationWalkedEvent(_, operation) => node.OperationNode? && node.operation == operation
    case CallbackEvent(_, callback) => node == CallbackNode(Item(callback))
    case CallbackEntryEvent(_, expression) => node.EntryNode? && node.expression == expression
    case ReferenceEvent(_, uri) => node == CallbackNode(Ref(uri)) || (node.EntryNode? && node.entry == Ref(uri))
  }

  /** A hook is called with an object at a location exactly where the location points at
      that object. */
  lemma {:induction false} CalledIff(document: Document, visits: Visits, event: Event)
    requires UniqueDocumentKeys(document)
    ensures event in WalkAll(DocumentBelow(document), [], visits) <==>
      Reached(document, visits, event.at).Some? && IsCallOf(event, Reached(document, visits, event.at).value)
  {
    var events := WalkAll(DocumentBelow(document), [], visits);
    WalkIsResolved(document, visits, event.at);
    hide WalkAll, DocumentBelow, EventsAt, UniqueDocumentKeys, IsCallOf, EventsBefore, EventsAfter, IsSkipped, Resolve;
    MembersAt(events, event);
    if Reached(document, visits, event.at).Some? {
      NodeIsCalledWith(Reached(document, visits, event.at).value, event);
    }
  }

  lemma {:induction false} NodeIsCalledWith(node: Node, event: Event)
    ensures event in EventsBefore(node, event.at) + EventsAfter(node, event.at) <==> IsCallOf(event, node)
  {
  }

  /** A Path Item, with its `paths` key or none, that the hook declines where it is. */
  ghost predicate IsDeclined(node: Option<Node>, at: seq<string>, visits: Visits) {
    match node
    case Some(ItemNode(item, path)) => !visits(at, item, path)
    case Some(EntryNode(_, Item(item))) => !visits(at, item, None)
    case _ => false
  }

  /** A location is passed over exactly when a Path Item on the way to it is declined. */
  lemma {:induction false} PassedOverIff(document: Document, visits: Visits, at: seq<string>)
    ensures Reached(document, visits, at) ==
      if exists k :: 0 <= k < |at| && IsDeclined(AsNode(Resolve(DocumentValue(document), at[..k])), at[..k], visits)
        then None
      else AsNode(Resolve(DocumentValue(document), at))
  {
    var value := DocumentValue(document);
    hide Resolve;
    forall k | 0 <= k < |at|
      ensures Declines(Resolve(value, at[..k]), [] + at[..k], visits)
        <==> IsDeclined(AsNode(Resolve(value, at[..k])), at[..k], visits)
    {
      assert [] + at[..k] == at[..k];
    }
  }

  lemma {:induction false} MembersAt(events: seq<Event>, event: Event)
    ensures event in events <==> event in EventsAt(events, event.at)
  {
    if events != [] {
      var n := |events| - 1;
      MembersAt(events[..n], event);
      assert events == events[..n] + [events[n]];
    }
  }

  // --- The names locations are made of ----------------------------------

  /** The value is a Path Item, wherever it is written. */
  predicate IsItem(value: Option<Value>, item: PathItem) {
    match AsNode(value)
    case Some(ItemNode(held, _)) => held == item
    case Some(EntryNode(_, Item(held))) => held == item
    case _ => false
  }

  /** The operation a slot of `item` holds. */
  function Held(item: PathItem, slot: Option<Operation>): Option<Node> {
    match slot
    case None => None
    case Some(operation) => Some(OperationNode(item, operation))
  }

  function ItemHeld(item: Option<PathItem>, path: Option<string>): Option<Node> {
    match item
    case None => None
    case Some(item) => Some(ItemNode(item, path))
  }

  function CallbackHeld(callback: Option<RefOr<Callback>>): Option<Node> {
    match callback
    case None => None
    case Some(callback) => Some(CallbackNode(callback))
  }

  function EntryHeld(expression: string, entry: Option<RefOr<PathItem>>): Option<Node> {
    match entry
    case None => None
    case Some(entry) => Some(EntryNode(expression, entry))
  }

  lemma {:induction false} TwoTokens(value: Value, first: string, second: string)
    ensures Resolve(value, [first, second]) ==
      match Member(value, first) { case None => None case Some(member) => Member(member, second) }
  {
    assert [first, second][1..] == [second];
    match Member(value, first)
    case None =>
    case Some(member) => OneToken(member, second);
  }

  /** Under the document: a Path Item is at `paths`, with its key, at `webhooks` or at
      `components/pathItems`, and a callback at `components/callbacks`. */
  lemma {:induction false} DocumentFields(document: Document, key: string)
    ensures AsNode(Resolve(DocumentValue(document), ["paths", key])) == ItemHeld(Lookup(document.paths, key), Some(key))
    ensures AsNode(Resolve(DocumentValue(document), ["webhooks", key]))
      == ItemHeld(Lookup(document.webhooks, key), None)
    ensures AsNode(Resolve(DocumentValue(document), ["components", "pathItems", key]))
         == ItemHeld(Lookup(document.pathItems, key), None)
    ensures AsNode(Resolve(DocumentValue(document), ["components", "callbacks", key]))
         == CallbackHeld(Lookup(document.callbacks, key))
  {
    hide Lookup;
    var value := DocumentValue(document);
    assert "paths" != "webhooks" && "paths" != "components" && "webhooks" != "components" && "pathItems" != "callbacks";
    TwoTokens(value, "paths", key);
    TwoTokens(value, "webhooks", key);
    TwoTokens(ComponentsValue(document), "pathItems", key);
    TwoTokens(ComponentsValue(document), "callbacks", key);
    assert ["components", "pathItems", key][1..] == ["pathItems", key];
    assert ["components", "callbacks", key][1..] == ["callbacks", key];
  }

  /** Under a Path Item, wherever it is written: each method's own field, and the
      additional operations by their method. */
  lemma {:induction false} ItemFields(node: Node, item: PathItem, method_: string)
    requires IsItem(Some(NodeValue(node)), item)
    ensures var value := NodeValue(node);
      && AsNode(Resolve(value, ["get"])) == Held(item, item.get)
      && AsNode(Resolve(value, ["put"])) == Held(item, item.put)
      && AsNode(Resolve(value, ["post"])) == Held(item, item.post)
      && AsNode(Resolve(value, ["delete"])) == Held(item, item.delete)
      && AsNode(Resolve(value, ["options"])) == Held(item, item.options)
      && AsNode(Resolve(value, ["head"])) == Held(item, item.head)
      && AsNode(Resolve(value, ["patch"])) == Held(item, item.patch)
      && AsNode(Resolve(value, ["trace"])) == Held(item, item.trace)
      && AsNode(Resolve(value, ["query"])) == Held(item, item.query)
      && AsNode(Resolve(value, ["additionalOperations", method_])) == Held(item, Lookup(item.additional, method_))
  {
    hide Lookup, Resolve, Slot, FieldName, MethodNamed, Member;
    var value := NodeValue(node);
    var all := [Get, Put, Post, Delete, Method.Options, Head, Patch, Trace, Query];
    forall m | m in all ensures AsNode(Resolve(value, [FieldName(m)])) == Held(item, Slot(item, m)) {
      OneField(node, item, m);
    }
    assert all[0] == Get && all[1] == Put && all[2] == Post && all[3] == Delete && all[4] == Method.Options;
    assert all[5] == Head && all[6] == Patch && all[7] == Trace && all[8] == Query;
    SlotsAre(item);
    FieldNamesAre();
    AdditionalField(node, item, method_);
  }

  lemma {:induction false} OneField(node: Node, item: PathItem, m: Method)
    requires IsItem(Some(NodeValue(node)), item)
    ensures AsNode(Resolve(NodeValue(node), [FieldName(m)])) == Held(item, Slot(item, m))
  {
    hide FieldName, MethodNamed, Slot;
    assert Rank(m) < 9;
    FieldIsNamed(m, 9);
    FieldNameIsShort(m);
    OneToken(NodeValue(node), FieldName(m));
  }

  lemma {:induction false} SlotsAre(item: PathItem)
    ensures Slot(item, Get) == item.get && Slot(item, Put) == item.put && Slot(item, Post) == item.post
    ensures Slot(item, Delete) == item.delete && Slot(item, Method.Options) == item.options
    ensures Slot(item, Head) == item.head && Slot(item, Patch) == item.patch && Slot(item, Trace) == item.trace
    ensures Slot(item, Query) == item.query
  {
  }

  lemma {:induction false} FieldNamesAre()
    ensures FieldName(Get) == "get" && FieldName(Put) == "put" && FieldName(Post) == "post"
    ensures FieldName(Delete) == "delete" && FieldName(Method.Options) == "options" && FieldName(Head) == "head"
    ensures FieldName(Patch) == "patch" && FieldName(Trace) == "trace" && FieldName(Query) == "query"
  {
  }

  lemma {:induction false} AdditionalField(node: Node, item: PathItem, method_: string)
    requires IsItem(Some(NodeValue(node)), item)
    ensures AsNode(Resolve(NodeValue(node), ["additionalOperations", method_]))
         == Held(item, Lookup(item.additional, method_))
  {
    hide Lookup, MethodNamed;
    TwoTokens(NodeValue(node), "additionalOperations", method_);
  }

  /** Under an operation its callbacks, and under a callback its entries. */
  lemma {:induction false} CallbackFields(holder: PathItem, operation: Operation, callback: Callback, key: string)
    ensures AsNode(Resolve(NodeValue(OperationNode(holder, operation)), ["callbacks", key]))
         == CallbackHeld(Lookup(operation.callbacks, key))
    ensures AsNode(Resolve(NodeValue(CallbackNode(Item(callback))), [key]))
         == EntryHeld(key, Lookup(callback.items, key))
  {
    hide Lookup;
    TwoTokens(NodeValue(OperationNode(holder, operation)), "callbacks", key);
    OneToken(NodeValue(CallbackNode(Item(callback))), key);
  }

  // --- Holders ----------------------------------------------------------

  lemma {:induction false} LastToken(value: Value, at: seq<string>)
    requires at != []
    ensures var n := |at| - 1;
      Resolve(value, at) ==
        match Resolve(value, at[..n]) { case None => None case Some(above) => Member(above, at[n]) }
  {
    var n := |at| - 1;
    assert at == at[..n] + [at[n]];
    ResolvesOn(value, at[..n], [at[n]]);
    match Resolve(value, at[..n])
    case None =>
    case Some(above) => OneToken(above, at[n]);
  }

  /** The Path Item an operation comes with is the one its location is in. */
  lemma {:induction false} HolderIsAbove(document: Document, at: seq<string>, holder: PathItem, operation: Operation)
    requires AsNode(Resolve(DocumentValue(document), at)) == Some(OperationNode(holder, operation))
    ensures var value, n := DocumentValue(document), |at|;
      || (n >= 1 && IsItem(Resolve(value, at[..n - 1]), holder))
      || (n >= 2 && at[n - 2] == "additionalOperations" && IsItem(Resolve(value, at[..n - 2]), holder))
  {
    var value := DocumentValue(document);
    hide MethodNamed, Lookup;
    assert Resolve(value, []) == Some(value);
    assert at != [];
    var front := at[..|at| - 1];
    LastToken(value, at);
    var above := Resolve(value, front).value;
    if above.AdditionalValue? {
      assert front != [];
      LastToken(value, front);
      assert front[..|front| - 1] == at[..|at| - 2];
    }
  }
}
