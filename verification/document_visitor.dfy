/** The functions of crates/kynos-openapi/src/visit.rs as they run: loops over the
    document's maps that drive a visitor whose state each hook changes. */
module DocumentVisitor {
  import opened JsonPointer
  import opened Sequences
  import opened DocumentWalk
  import opened Options

  // --- How a walk is built up -------------------------------------------

  lemma {:induction false} WalkUnfolds(node: Node, at: seq<string>, visits: Visits)
    ensures Walk(node, at, visits) ==
      EventsBefore(node, at) + (if GoesBelow(node, at, visits) then WalkAll(Children(node), at, visits) else [])
        + EventsAfter(node, at)
  {
  }

  lemma {:induction false} WalkNothing(children: seq<Below>, at: seq<string>, visits: Visits)
    ensures children[..|children|] == children && WalkAll(children[..0], at, visits) == []
  {
  }

  /** One child more, after what was walked so far. */
  lemma {:induction false} WalkAllExtends(
      sofar: seq<Event>, children: seq<Below>, count: nat, at: seq<string>, visits: Visits)
    requires count < |children|
    ensures sofar + WalkAll(children[..count + 1], at, visits)
      == sofar + WalkAll(children[..count], at, visits)
        + Walk(children[count].node, at + children[count].tokens, visits)
    ensures Size(children[count].node) <= SizeAll(children)
  {
    hide Walk;
    assert children[..count + 1][..count] == children[..count];
    Associative(sofar, WalkAll(children[..count], at, visits),
      Walk(children[count].node, at + children[count].tokens, visits));
    SizeAtMostAll(children, count);
  }

  lemma {:induction false} WalkAllConcat(a: seq<Below>, b: seq<Below>, at: seq<string>, visits: Visits)
    ensures WalkAll(a + b, at, visits) == WalkAll(a, at, visits) + WalkAll(b, at, visits)
    decreases |b|
  {
    hide Walk;
    if b == [] {
      assert a + b == a;
    } else {
      WalkAllConcat(a, b[..|b| - 1], at, visits);
      InitOfConcat(a, b);
      Associative(WalkAll(a, at, visits), WalkAll(b[..|b| - 1], at, visits),
        Walk(b[|b| - 1].node, at + b[|b| - 1].tokens, visits));
    }
  }

  lemma {:induction false} SizeAtMostAll(children: seq<Below>, i: nat)
    requires i < |children|
    ensures Size(children[i].node) <= SizeAll(children)
  {
    if i < |children| - 1 {
      SizeAtMostAll(children[..|children| - 1], i);
    }
  }

  /** The fixed operations among one method more. */
  lemma {:induction false} FixedExtends(item: PathItem, count: nat, at: seq<string>, visits: Visits)
    requires count < 9
    ensures var method_, was := Methods(9)[count], WalkAll(FixedBelow(item, Operations(item, count)), at, visits);
      WalkAll(FixedBelow(item, Operations(item, count + 1)), at, visits) ==
      match Slot(item, method_)
      case None => was
      case Some(operation) => was + Walk(OperationNode(item, operation), at + [FieldName(method_)], visits)
  {
    hide Walk;
    var method_ := Methods(9)[count];
    var was, now := FixedBelow(item, Operations(item, count)), FixedBelow(item, Operations(item, count + 1));
    match Slot(item, method_)
    case None => assert Operations(item, count + 1) == Operations(item, count);
    case Some(operation) =>
      assert now == was + [Below([FieldName(method_)], OperationNode(item, operation))];
      assert now[..|now| - 1] == was;
  }

  lemma {:induction false} SlotIsSmaller(item: PathItem, method_: Method)
    requires Slot(item, method_).Some?
    ensures OperationSize(Slot(item, method_).value) < ItemSize(item)
  {
  }

  lemma {:induction false} TokensBelow(at: At, section: string, key: string)
    ensures Tokens(at.Member(section).Member(key)) == Tokens(at) + [section, key]
    ensures Tokens(at.Member(section)) == Tokens(at) + [section]
  {
  }

  /** A Path Item's walk, after what was walked so far. */
  lemma {:induction false} ItemWalks(
      sofar: seq<Event>, item: PathItem, path: Option<string>, at: seq<string>, visits: Visits)
    ensures var start := sofar + [PathItemEvent(at, item, path)];
      sofar + Walk(ItemNode(item, path), at, visits) ==
        if !visits(at, item, path) then start
        else
          start + WalkAll(FixedBelow(item, Operations(item, 9)), at, visits)
          + WalkAll(AdditionalBelow(item), at, visits)
  {
    hide Walk, WalkAll, FixedBelow, AdditionalBelow, Operations;
    WalkUnfolds(ItemNode(item, path), at, visits);
    var fixed, additional := FixedBelow(item, Operations(item, 9)), AdditionalBelow(item);
    WalkAllConcat(fixed, additional, at, visits);
    Regrouped(sofar, [PathItemEvent(at, item, path)], WalkAll(fixed, at, visits), WalkAll(additional, at, visits));
  }

  lemma {:induction false} EntryWalksItem(
      sofar: seq<Event>, expression: string, item: PathItem, at: seq<string>, visits: Visits)
    ensures sofar + Walk(EntryNode(expression, Item(item)), at, visits)
      == sofar + [CallbackEntryEvent(at, expression)] + Walk(ItemNode(item, None), at, visits)
  {
    hide Walk, Tokens;
    var entry, inner := EntryNode(expression, Item(item)), ItemNode(item, None);
    WalkUnfolds(entry, at, visits);
    WalkUnfolds(inner, at, visits);
    assert EventsBefore(entry, at) == [CallbackEntryEvent(at, expression)] + EventsBefore(inner, at);
  }

  lemma {:induction false} EntryWalksReference(
      sofar: seq<Event>, expression: string, uri: string, at: seq<string>, visits: Visits)
    ensures sofar + Walk(EntryNode(expression, Ref(uri)), at, visits)
      == sofar + [CallbackEntryEvent(at, expression)] + [ReferenceEvent(at, uri)]
  {
    WalkUnfolds(EntryNode(expression, Ref(uri)), at, visits);
  }

  // --- The visitor ------------------------------------------------------

  /** A visitor that writes each hook down, with its pointer's token texts, and
      answers `path_item` as `visits` says. */
  class Visitor {
    const visits: Visits
    var events: seq<Event>

    constructor (visits: Visits)
      ensures this.visits == visits && events == []
    {
      this.visits, events := visits, [];
    }

    /** `document`: what `routes` walks comes first, and the two kinds of component
        behind it. */
    method WalkDocument(document: Document)
      modifies this
      ensures events == old(events) + WalkAll(DocumentBelow(document), [], visits)
    {
      hide Walk, WalkAll;
      ghost var base, routes := events, RoutesBelow(document);
      ghost var items := ItemsBelow(["components", "pathItems"], document.pathItems, false);
      ghost var callbacks := CallbacksBelow(["components", "callbacks"], document.callbacks);
      WalkRoutes(document);
      ghost var afterRoutes := events;
      var components := Root.Member("components");
      var pathItems := components.Member("pathItems");
      WalkNothing(items, [], visits);
      for i := 0 to |document.pathItems|
        invariant events == afterRoutes + WalkAll(items[..i], [], visits)
      {
        WalkAllExtends(afterRoutes, items, i, [], visits);
        TokensBelow(Root, "components", "pathItems");
        assert [] + items[i].tokens == Tokens(pathItems.Member(document.pathItems[i].key));
        WalkPathItem(pathItems.Member(document.pathItems[i].key), document.pathItems[i].value, None);
      }
      ghost var afterItems := events;
      var section := components.Member("callbacks");
      WalkNothing(callbacks, [], visits);
      for i := 0 to |document.callbacks|
        invariant events == afterItems + WalkAll(callbacks[..i], [], visits)
      {
        WalkAllExtends(afterItems, callbacks, i, [], visits);
        TokensBelow(Root, "components", "callbacks");
        assert [] + callbacks[i].tokens == Tokens(section.Member(document.callbacks[i].key));
        WalkCallbackOrReference(section.Member(document.callbacks[i].key), document.callbacks[i].value);
      }
      WalkAllConcat(routes, items, [], visits);
      WalkAllConcat(routes + items, callbacks, [], visits);
      Regrouped(base, WalkAll(routes, [], visits), WalkAll(items, [], visits), WalkAll(callbacks, [], visits));
    }

    /** `routes`: `paths` is walked before `webhooks`. */
    method WalkRoutes(document: Document)
      modifies this
      ensures events == old(events) + WalkAll(RoutesBelow(document), [], visits)
    {
      hide Walk, WalkAll;
      ghost var base := events;
      ghost var keyed := ItemsBelow(["paths"], document.paths, true);
      ghost var hooks := ItemsBelow(["webhooks"], document.webhooks, false);
      var paths := Root.Member("paths");
      WalkNothing(keyed, [], visits);
      for i := 0 to |document.paths|
        invariant events == base + WalkAll(keyed[..i], [], visits)
      {
        WalkAllExtends(base, keyed, i, [], visits);
        TokensBelow(Root, "paths", document.paths[i].key);
        assert [] + keyed[i].tokens == Tokens(paths.Member(document.paths[i].key));
        WalkPathItem(paths.Member(document.paths[i].key), document.paths[i].value, Some(document.paths[i].key));
      }
      ghost var afterPaths := events;
      var webhooks := Root.Member("webhooks");
      WalkNothing(hooks, [], visits);
      for i := 0 to |document.webhooks|
        invariant events == afterPaths + WalkAll(hooks[..i], [], visits)
      {
        WalkAllExtends(afterPaths, hooks, i, [], visits);
        TokensBelow(Root, "webhooks", document.webhooks[i].key);
        assert [] + hooks[i].tokens == Tokens(webhooks.Member(document.webhooks[i].key));
        WalkPathItem(webhooks.Member(document.webhooks[i].key), document.webhooks[i].value, None);
      }
      WalkAllConcat(keyed, hooks, [], visits);
      Associative(base, WalkAll(keyed, [], visits), WalkAll(hooks, [], visits));
    }

    /** `walk_path_item`: the hook of the item itself comes before its operations, the
        fixed methods' before the additional ones. */
    method WalkPathItem(at: At, item: PathItem, path: Option<string>)
      modifies this
      ensures events == old(events) + Walk(ItemNode(item, path), Tokens(at), visits)
      decreases ItemSize(item), 1
    {
      hide Walk, WalkAll, ItemSize, OperationSize, SizeAll, Slot, FieldName;
      ghost var here := Tokens(at);
      ItemWalks(events, item, path, here, visits);
      events := events + [PathItemEvent(Tokens(at), item, path)];
      if !visits(Tokens(at), item, path) {
        return;
      }
      ghost var start := events;
      OperationsBelowSize(item);
      ghost var fixed, additional := FixedBelow(item, Operations(item, 9)), AdditionalBelow(item);
      SizeAllConcat(fixed, additional);
      WalkNothing(fixed, here, visits);
      assert FixedBelow(item, Operations(item, 0)) == fixed[..0];
      for count := 0 to 9
        invariant events == start + WalkAll(FixedBelow(item, Operations(item, count)), here, visits)
      {
        var method_ := Methods(9)[count];
        FixedExtends(item, count, here, visits);
        match Slot(item, method_) {
          case None =>
          case Some(operation) =>
            SlotIsSmaller(item, method_);
            WalkOperation(at.Member(FieldName(method_)), item, operation);
        }
      }
      ghost var afterFixed := events;
      var section := at.Member("additionalOperations");
      WalkNothing(additional, here, visits);
      for i := 0 to |item.additional|
        invariant events == afterFixed + WalkAll(additional[..i], here, visits)
      {
        WalkAllExtends(afterFixed, additional, i, here, visits);
        TokensBelow(at, "additionalOperations", item.additional[i].key);
        WalkOperation(section.Member(item.additional[i].key), item, item.additional[i].value);
      }
    }

    /** `walk_operation`: its two hooks, around the callbacks it declares. */
    method WalkOperation(at: At, item: PathItem, operation: Operation)
      modifies this
      ensures events == old(events) + Walk(OperationNode(item, operation), Tokens(at), visits)
      decreases OperationSize(operation), 0
    {
      hide Walk, WalkAll, CallbackSize, CallbacksSize, SizeAll;
      ghost var base, here := events, Tokens(at);
      WalkUnfolds(OperationNode(item, operation), here, visits);
      events := events + [OperationEvent(Tokens(at), item, operation)];
      ghost var start, below := events, CallbacksBelow(["callbacks"], operation.callbacks);
      CallbacksBelowSize(["callbacks"], operation.callbacks);
      var callbacks := at.Member("callbacks");
      WalkNothing(below, here, visits);
      for i := 0 to |operation.callbacks|
        invariant events == start + WalkAll(below[..i], here, visits)
      {
        WalkAllExtends(start, below, i, here, visits);
        TokensBelow(at, "callbacks", operation.callbacks[i].key);
        assert here + below[i].tokens == Tokens(callbacks.Member(operation.callbacks[i].key));
        WalkCallbackOrReference(callbacks.Member(operation.callbacks[i].key), operation.callbacks[i].value);
      }
      Regrouped(base, [OperationEvent(here, item, operation)], WalkAll(below, here, visits),
        [OperationWalkedEvent(here, operation)]);
      events := events + [OperationWalkedEvent(Tokens(at), operation)];
    }

    /** `callback_or_reference`: a reference is reported and not followed. */
    method WalkCallbackOrReference(at: At, entry: RefOr<Callback>)
      modifies this
      ensures events == old(events) + Walk(CallbackNode(entry), Tokens(at), visits)
      decreases CallbackSize(entry), 1
    {
      hide Walk, WalkAll;
      WalkUnfolds(CallbackNode(entry), Tokens(at), visits);
      WalkNothing([], Tokens(at), visits);
      match entry
      case Item(callback) => WalkCallback(at, callback);
      case Ref(uri) => events := events + [ReferenceEvent(Tokens(at), uri)];
    }

    /** `callback`: the hook, then each entry, whose Path Item is walked where it is
        written inline. */
    method WalkCallback(at: At, callback: Callback)
      modifies this
      ensures events == old(events) + Walk(CallbackNode(Item(callback)), Tokens(at), visits)
      decreases CallbackSize(Item(callback)), 0
    {
      hide Walk, WalkAll, EntriesSize, ItemSize, SizeAll;
      ghost var base, here := events, Tokens(at);
      WalkUnfolds(CallbackNode(Item(callback)), here, visits);
      events := events + [CallbackEvent(Tokens(at), callback)];
      ghost var start, below := events, EntriesBelow(callback);
      EntriesBelowSize(callback);
      WalkNothing(below, here, visits);
      for i := 0 to |callback.items|
        invariant events == start + WalkAll(below[..i], here, visits)
      {
        WalkAllExtends(start, below, i, here, visits);
        ghost var was := events;
        var expression, entry := callback.items[i].key, callback.items[i].value;
        var inner := at.Member(expression);
        assert below[i].node == EntryNode(expression, entry) && here + below[i].tokens == Tokens(inner);
        events := events + [CallbackEntryEvent(Tokens(inner), expression)];
        match entry {
          case Item(item) =>
            EntryWalksItem(was, expression, item, Tokens(inner), visits);
            WalkPathItem(inner, item, None);
          case Ref(uri) =>
            EntryWalksReference(was, expression, uri, Tokens(inner), visits);
            events := events + [ReferenceEvent(Tokens(inner), uri)];
        }
      }
      Associative(base, [CallbackEvent(here, callback)], WalkAll(below, here, visits));
    }
  }
}
