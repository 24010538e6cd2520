/** The visitor of crates/kynos-openapi/src/visit.rs, as a function of the document: the
    hooks it calls, in order, each with its object and the object's location. */
module DocumentWalk {
  import opened JsonPointer
  import opened Sequences
  import opened Options
  import opened Dictionaries

  // --- The document -----------------------------------------------------

  datatype RefOr<+T> = Item(item: T) | Ref(uri: string)

  datatype Method = Get | Put | Post | Delete | Options | Head | Patch | Trace | Query

  datatype Operation = Operation(callbacks: Map<RefOr<Callback>>)

  datatype Callback = Callback(items: Map<RefOr<PathItem>>)

  datatype PathItem = PathItem(
    get: Option<Operation>, put: Option<Operation>, post: Option<Operation>,
    delete: Option<Operation>, options: Option<Operation>, head: Option<Operation>,
    patch: Option<Operation>, trace: Option<Operation>, query: Option<Operation>,
    additional: Map<Operation>)

  datatype Document = Document(
    paths: Map<PathItem>, webhooks: Map<PathItem>, pathItems: Map<PathItem>, callbacks: Map<RefOr<Callback>>)

  /** `Method::all`. */
  function Methods(count: nat): seq<Method>
    requires count <= 9
  {
    [Get, Put, Post, Delete, Options, Head, Patch, Trace, Query][..count]
  }

  function FieldName(method_: Method): string {
    match method_
    case Get => "get"
    case Put => "put"
    case Post => "post"
    case Delete => "delete"
    case Options => "options"
    case Head => "head"
    case Patch => "patch"
    case Trace => "trace"
    case Query => "query"
  }

  function Slot(item: PathItem, method_: Method): Option<Operation> {
    match method_
    case Get => item.get
    case Put => item.put
    case Post => item.post
    case Delete => item.delete
    case Options => item.options
    case Head => item.head
    case Patch => item.patch
    case Trace => item.trace
    case Query => item.query
  }

  /** The declared ones among the first `count` methods, in their order. */
  function Operations(item: PathItem, count: nat): seq<(Method, Operation)>
    requires count <= 9
  {
    if count == 0 then []
    else
      var method_ := Methods(9)[count - 1];
      Operations(item, count - 1) +
        match Slot(item, method_) case None => [] case Some(operation) => [(method_, operation)]
  }

  // --- What is written where --------------------------------------------

  /** An object the walk reaches, with what its hook is told besides: an operation's
      Path Item, and the `paths` key of a Path Item that has one. */
  datatype Node =
    | ItemNode(item: PathItem, path: Option<string>)
    | OperationNode(holder: PathItem, operation: Operation)
    | CallbackNode(callback: RefOr<Callback>)
    | EntryNode(expression: string, entry: RefOr<PathItem>)

  /** A node below another, under the tokens that lead to it. */
  datatype Below = Below(tokens: seq<string>, node: Node)

  function ItemsBelow(section: seq<string>, items: Map<PathItem>, keyed: bool): (r: seq<Below>)
    ensures |r| == |items|
  {
    seq(|items|, i requires 0 <= i < |items| =>
      Below(section + [items[i].key], ItemNode(items[i].value, if keyed then Some(items[i].key) else None)))
  }

  function CallbacksBelow(section: seq<string>, callbacks: Map<RefOr<Callback>>): (r: seq<Below>)
    ensures |r| == |callbacks|
  {
    seq(|callbacks|, i requires 0 <= i < |callbacks| =>
      Below(section + [callbacks[i].key], CallbackNode(callbacks[i].value)))
  }

  function FixedBelow(item: PathItem, operations: seq<(Method, Operation)>): (r: seq<Below>)
    ensures |r| == |operations|
  {
    seq(|operations|, i requires 0 <= i < |operations| =>
      Below([FieldName(operations[i].0)], OperationNode(item, operations[i].1)))
  }

  function AdditionalBelow(item: PathItem): (r: seq<Below>)
    ensures |r| == |item.additional|
  {
    seq(|item.additional|, i requires 0 <= i < |item.additional| =>
      Below(["additionalOperations", item.additional[i].key], OperationNode(item, item.additional[i].value)))
  }

  function OperationsBelow(item: PathItem): seq<Below> {
    FixedBelow(item, Operations(item, 9)) + AdditionalBelow(item)
  }

  function EntriesBelow(callback: Callback): (r: seq<Below>)
    ensures |r| == |callback.items|
  {
    seq(|callback.items|, i requires 0 <= i < |callback.items| =>
      Below([callback.items[i].key], EntryNode(callback.items[i].key, callback.items[i].value)))
  }

  function RoutesBelow(document: Document): seq<Below> {
    ItemsBelow(["paths"], document.paths, true) + ItemsBelow(["webhooks"], document.webhooks, false)
  }

  /** What a document holds for the walk: its routes, then its components. */
  function DocumentBelow(document: Document): seq<Below> {
    RoutesBelow(document)
    + ItemsBelow(["components", "pathItems"], document.pathItems, false)
    + CallbacksBelow(["components", "callbacks"], document.callbacks)
  }

  /** What is written below a node, in order. Nothing is below a reference: it is
      not followed. */
  function Children(node: Node): seq<Below> {
    match node
    case ItemNode(item, _) => OperationsBelow(item)
    case OperationNode(_, operation) => CallbacksBelow(["callbacks"], operation.callbacks)
    case CallbackNode(Item(callback)) => EntriesBelow(callback)
    case EntryNode(_, Item(item)) => OperationsBelow(item)
    case CallbackNode(Ref(_)) => []
    case EntryNode(_, Ref(_)) => []
  }

  // --- What the hooks are called with -----------------------------------

  datatype Event =
    | PathItemEvent(at: seq<string>, item: PathItem, path: Option<string>)
    | OperationEvent(at: seq<string>, item: PathItem, operation: Operation)
    | OperationWalkedEvent(at: seq<string>, operation: Operation)
    | CallbackEvent(at: seq<string>, callback: Callback)
    | CallbackEntryEvent(at: seq<string>, expression: string)
    | ReferenceEvent(at: seq<string>, uri: string)

  /** What the `path_item` hook answers at each location. */
  type Visits = (seq<string>, PathItem, Option<string>) -> bool

  function EventsBefore(node: Node, at: seq<string>): seq<Event> {
    match node
    case ItemNode(item, path) => [PathItemEvent(at, item, path)]
    case OperationNode(holder, operation) => [OperationEvent(at, holder, operation)]
    case CallbackNode(Item(callback)) => [CallbackEvent(at, callback)]
    case CallbackNode(Ref(uri)) => [ReferenceEvent(at, uri)]
    case EntryNode(expression, Item(item)) => [CallbackEntryEvent(at, expression), PathItemEvent(at, item, None)]
    case EntryNode(expression, Ref(uri)) => [CallbackEntryEvent(at, expression), ReferenceEvent(at, uri)]
  }

  function EventsAfter(node: Node, at: seq<string>): seq<Event> {
    if node.OperationNode? then [OperationWalkedEvent(at, node.operation)] else []
  }

  /** Whether the walk goes below a node: it skips what is below a Path Item the
      hook declines. */
  predicate GoesBelow(node: Node, at: seq<string>, visits: Visits) {
    match node
    case ItemNode(item, path) => visits(at, item, path)
    case EntryNode(_, Item(item)) => visits(at, item, None)
    case _ => true
  }

  // --- Termination ------------------------------------------------------

  function OperationSize(operation: Operation): nat
    decreases operation, 1
  {
    1 + CallbacksSize(operation.callbacks)
  }

  function CallbacksSize(callbacks: Map<RefOr<Callback>>): nat
    decreases callbacks, 0
  {
    if callbacks == [] then 0
    else CallbacksSize(callbacks[..|callbacks| - 1]) + CallbackSize(callbacks[|callbacks| - 1].value)
  }

  function CallbackSize(callback: RefOr<Callback>): nat
    decreases callback, 0
  {
    match callback
    case Ref(_) => 1
    case Item(callback) => 1 + EntriesSize(callback.items)
  }

  function EntriesSize(entries: Map<RefOr<PathItem>>): nat
    decreases entries, 0
  {
    if entries == [] then 0 else EntriesSize(entries[..|entries| - 1]) + EntrySize(entries[|entries| - 1].value)
  }

  function EntrySize(entry: RefOr<PathItem>): nat
    decreases entry, 0
  {
    match entry
    case Ref(_) => 1
    case Item(item) => 1 + ItemSize(item)
  }

  function SlotSize(slot: Option<Operation>): nat
    decreases slot, 2
  {
    match slot
    case None => 0
    case Some(operation) => OperationSize(operation)
  }

  function ItemSize(item: PathItem): nat
    decreases item, 0
  {
    1 + SlotSize(item.get) + SlotSize(item.put) + SlotSize(item.post) + SlotSize(item.delete) + SlotSize(item.options)
    + SlotSize(item.head) + SlotSize(item.patch) + SlotSize(item.trace) + SlotSize(item.query)
    + AdditionalSize(item.additional)
  }

  function AdditionalSize(additional: Map<Operation>): nat
    decreases additional, 0
  {
    if additional == [] then 0
    else AdditionalSize(additional[..|additional| - 1]) + OperationSize(additional[|additional| - 1].value)
  }

  function Size(node: Node): nat
  {
    match node
    case ItemNode(item, _) => ItemSize(item)
    case OperationNode(_, operation) => OperationSize(operation)
    case CallbackNode(callback) => CallbackSize(callback)
    case EntryNode(_, entry) => EntrySize(entry)
  }

  function SizeAll(children: seq<Below>): nat {
    if children == [] then 0 else SizeAll(children[..|children| - 1]) + Size(children[|children| - 1].node)
  }

  lemma {:induction false} SizeAllConcat(a: seq<Below>, b: seq<Below>)
    ensures SizeAll(a + b) == SizeAll(a) + SizeAll(b)
  {
    if b == [] {
      assert a + b == a;
    } else {
      SizeAllConcat(a, b[..|b| - 1]);
      InitOfConcat(a, b);
    }
  }

  lemma {:induction false} CallbacksBelowSize(section: seq<string>, callbacks: Map<RefOr<Callback>>)
    ensures SizeAll(CallbacksBelow(section, callbacks)) == CallbacksSize(callbacks)
  {
    if callbacks != [] {
      CallbacksBelowSize(section, callbacks[..|callbacks| - 1]);
      assert CallbacksBelow(section, callbacks)[..|callbacks| - 1]
        == CallbacksBelow(section, callbacks[..|callbacks| - 1]);
    }
  }

  lemma {:induction false} EntriesBelowSize(callback: Callback)
    ensures SizeAll(EntriesBelow(callback)) == EntriesSize(callback.items)
    decreases |callback.items|
  {
    var items := callback.items;
    if items != [] {
      EntriesBelowSize(Callback(items[..|items| - 1]));
      assert EntriesBelow(callback)[..|items| - 1] == EntriesBelow(Callback(items[..|items| - 1]));
    }
  }

  lemma {:induction false} AdditionalBelowSize(item: PathItem, count: nat)
    requires count <= |item.additional|
    ensures SizeAll(AdditionalBelow(item)[..count]) == AdditionalSize(item.additional[..count])
  {
    if count > 0 {
      AdditionalBelowSize(item, count - 1);
      assert AdditionalBelow(item)[..count][..count - 1] == AdditionalBelow(item)[..count - 1];
      assert item.additional[..count][..count - 1] == item.additional[..count - 1];
    }
  }

  function FixedSize(item: PathItem, count: nat): nat
    requires count <= 9
  {
    if count == 0 then 0 else FixedSize(item, count - 1) + SlotSize(Slot(item, Methods(9)[count - 1]))
  }

  lemma {:induction false} FixedBelowSize(item: PathItem, count: nat)
    requires count <= 9
    ensures SizeAll(FixedBelow(item, Operations(item, count))) == FixedSize(item, count)
  {
    if count > 0 {
      FixedBelowSize(item, count - 1);
      var before, all := Operations(item, count - 1), Operations(item, count);
      if all == before {
        assert Slot(item, Methods(9)[count - 1]) == None;
      } else {
        assert FixedBelow(item, all)[..|before|] == FixedBelow(item, before);
      }
    }
  }

  lemma {:induction false} FixedSizeOfItem(item: PathItem)
    ensures 1 + FixedSize(item, 9) + AdditionalSize(item.additional) == ItemSize(item)
  {
    assert FixedSize(item, 3) == SlotSize(item.get) + SlotSize(item.put) + SlotSize(item.post) by {
      assert FixedSize(item, 1) == SlotSize(item.get);
      assert FixedSize(item, 2) == SlotSize(item.get) + SlotSize(item.put);
    }
    assert FixedSize(item, 6)
      == FixedSize(item, 3) + SlotSize(item.delete) + SlotSize(item.options) + SlotSize(item.head) by {
      assert FixedSize(item, 4) == FixedSize(item, 3) + SlotSize(item.delete);
      assert FixedSize(item, 5) == FixedSize(item, 4) + SlotSize(item.options);
    }
    assert FixedSize(item, 9)
      == FixedSize(item, 6) + SlotSize(item.patch) + SlotSize(item.trace) + SlotSize(item.query) by {
      assert FixedSize(item, 7) == FixedSize(item, 6) + SlotSize(item.patch);
      assert FixedSize(item, 8) == FixedSize(item, 7) + SlotSize(item.trace);
    }
  }

  lemma {:induction false} OperationsBelowSize(item: PathItem)
    ensures SizeAll(OperationsBelow(item)) == ItemSize(item) - 1
  {
    FixedBelowSize(item, 9);
    var n := |item.additional|;
    AdditionalBelowSize(item, n);
    assert AdditionalBelow(item)[..n] == AdditionalBelow(item) && item.additional[..n] == item.additional;
    SizeAllConcat(FixedBelow(item, Operations(item, 9)), AdditionalBelow(item));
    FixedSizeOfItem(item);
  }

  /** The recursion terminates: what is below a node is smaller than it. */
  lemma {:induction false} ChildrenAreSmaller(node: Node)
    ensures SizeAll(Children(node)) < Size(node)
  {
    match node
    case ItemNode(item, _) => OperationsBelowSize(item);
    case OperationNode(_, operation) => CallbacksBelowSize(["callbacks"], operation.callbacks);
    case CallbackNode(Item(callback)) => EntriesBelowSize(callback);
    case EntryNode(_, Item(item)) => OperationsBelowSize(item);
    case CallbackNode(Ref(_)) =>
    case EntryNode(_, Ref(_)) =>
  }

  lemma {:induction false} SizeIsPositive(node: Node)
    ensures Size(node) > 0
  {
  }

  // --- The walk ---------------------------------------------------------

  /** Every event at and below a node. */
  function Walk(node: Node, at: seq<string>, visits: Visits): seq<Event>
    decreases Size(node), 0
  {
    ChildrenAreSmaller(node);
    EventsBefore(node, at)
    + (if GoesBelow(node, at, visits) then WalkAll(Children(node), at, visits) else [])
    + EventsAfter(node, at)
  }

  function WalkAll(children: seq<Below>, at: seq<string>, visits: Visits): seq<Event>
    decreases SizeAll(children), 1
  {
    if children == [] then []
    else
      var last := children[|children| - 1];
      SizeIsPositive(last.node);
      WalkAll(children[..|children| - 1], at, visits) + Walk(last.node, at + last.tokens, visits)
  }

  // --- What each location holds -----------------------------------------

  /** The node `suffix` leads to from a node at `at`, where the walk gets that far:
      below no Path Item the hook declines, and below no reference. */
  function Reach(node: Node, at: seq<string>, visits: Visits, suffix: seq<string>): Option<Node>
    decreases Size(node), 0
  {
    ChildrenAreSmaller(node);
    if suffix == [] then Some(node)
    else if GoesBelow(node, at, visits) then ReachAll(Children(node), at, visits, suffix)
    else None
  }

  function ReachAll(children: seq<Below>, at: seq<string>, visits: Visits, suffix: seq<string>): Option<Node>
    decreases SizeAll(children), 1
  {
    if children == [] then None
    else
      var last := children[|children| - 1];
      SizeIsPositive(last.node);
      if last.tokens <= suffix then Reach(last.node, at + last.tokens, visits, suffix[|last.tokens|..])
      else ReachAll(children[..|children| - 1], at, visits, suffix)
  }

  /** The events of `events` at one location, in order. */
  function EventsAt(events: seq<Event>, at: seq<string>): seq<Event> {
    if events == [] then []
    else EventsAt(events[..|events| - 1], at) + if events[|events| - 1].at == at then [events[|events| - 1]] else []
  }

  /** What the hooks are called with at a location that holds this. */
  function Expected(reached: Option<Node>, at: seq<string>): seq<Event> {
    match reached
    case None => []
    case Some(node) => EventsBefore(node, at) + EventsAfter(node, at)
  }

  // --- Unique keys ------------------------------------------------------

  ghost predicate OwnKeysDistinct(node: Node) {
    match node
    case ItemNode(item, _) => DistinctKeys(item.additional)
    case OperationNode(_, operation) => DistinctKeys(operation.callbacks)
    case CallbackNode(Item(callback)) => DistinctKeys(callback.items)
    case EntryNode(_, Item(item)) => DistinctKeys(item.additional)
    case CallbackNode(Ref(_)) => true
    case EntryNode(_, Ref(_)) => true
  }

  /** Every map at and below the node has distinct keys. */
  ghost predicate UniqueKeys(node: Node)
    decreases Size(node), 0
  {
    ChildrenAreSmaller(node);
    OwnKeysDistinct(node) && UniqueKeysAll(Children(node))
  }

  ghost predicate UniqueKeysAll(children: seq<Below>)
    decreases SizeAll(children), 1
  {
    if children == [] then true
    else
      SizeIsPositive(children[|children| - 1].node);
      UniqueKeysAll(children[..|children| - 1]) && UniqueKeys(children[|children| - 1].node)
  }

  ghost predicate UniqueDocumentKeys(document: Document) {
    && DistinctKeys(document.paths) && DistinctKeys(document.webhooks)
    && DistinctKeys(document.pathItems) && DistinctKeys(document.callbacks)
    && UniqueKeysAll(DocumentBelow(document))
  }

  /** No child is written below another. */
  ghost predicate Apart(children: seq<Below>) {
    && (forall i :: 0 <= i < |children| ==> children[i].tokens != [])
    && forall i, j :: 0 <= i < |children| && 0 <= j < |children| && i != j ==>
         !(children[i].tokens <= children[j].tokens)
  }

  lemma {:induction false} SectionIsApart(children: seq<Below>, section: seq<string>)
    requires forall i :: 0 <= i < |children| ==>
      |children[i].tokens| == |section| + 1 && children[i].tokens[..|section|] == section
    requires forall i, j :: 0 <= i < j < |children| ==> children[i].tokens[|section|] != children[j].tokens[|section|]
    ensures Apart(children)
  {
  }

  /** Two lists that differ in the `k`-th token of every child. */
  lemma {:induction false} ApartConcat(a: seq<Below>, b: seq<Below>, k: nat)
    requires Apart(a) && Apart(b)
    requires forall i :: 0 <= i < |a| ==> k < |a[i].tokens|
    requires forall j :: 0 <= j < |b| ==> k < |b[j].tokens|
    requires forall i, j :: 0 <= i < |a| && 0 <= j < |b| ==> a[i].tokens[k] != b[j].tokens[k]
    ensures Apart(a + b)
  {
    var ab := a + b;
    forall i, j | 0 <= i < |ab| && 0 <= j < |ab| && i != j ensures !(ab[i].tokens <= ab[j].tokens) {
      if i < |a| && j >= |a| {
        assert a[i].tokens[k] != b[j - |a|].tokens[k];
      } else if i >= |a| && j < |a| {
        assert a[j].tokens[k] != b[i - |a|].tokens[k];
      }
    }
  }

  lemma {:induction false} CallbacksAreApart(section: seq<string>, callbacks: Map<RefOr<Callback>>)
    requires DistinctKeys(callbacks)
    ensures Apart(CallbacksBelow(section, callbacks))
  {
    SectionIsApart(CallbacksBelow(section, callbacks), section);
  }

  lemma {:induction false} ItemsAreApart(section: seq<string>, items: Map<PathItem>, keyed: bool)
    requires DistinctKeys(items)
    ensures Apart(ItemsBelow(section, items, keyed))
  {
    SectionIsApart(ItemsBelow(section, items, keyed), section);
  }

  function Rank(method_: Method): nat {
    match method_
    case Get => 0
    case Put => 1
    case Post => 2
    case Delete => 3
    case Options => 4
    case Head => 5
    case Patch => 6
    case Trace => 7
    case Query => 8
  }

  /** A Path Item's fixed operations come in the order of `Method::all`, each
      declared one exactly once. */
  lemma {:induction false} OperationsAreInOrder(item: PathItem, count: nat)
    requires count <= 9
    ensures var operations := Operations(item, count);
      && (forall i :: 0 <= i < |operations| ==>
           Slot(item, operations[i].0) == Some(operations[i].1) && Rank(operations[i].0) < count)
      && (forall i, j :: 0 <= i < j < |operations| ==> Rank(operations[i].0) < Rank(operations[j].0))
      && (forall m: Method :: Rank(m) < count && Slot(item, m).Some? ==> (m, Slot(item, m).value) in operations)
  {
    if count > 0 {
      OperationsAreInOrder(item, count - 1);
      assert Rank(Methods(9)[count - 1]) == count - 1;
      assert forall m: Method :: Rank(m) == count - 1 ==> m == Methods(9)[count - 1];
    }
  }

  lemma {:induction false} OperationsAreApart(item: PathItem)
    requires DistinctKeys(item.additional)
    ensures Apart(OperationsBelow(item))
  {
    hide Operations, FieldName, Slot, Rank;
    var fixed, additional := FixedBelow(item, Operations(item, 9)), AdditionalBelow(item);
    OperationsAreInOrder(item, 9);
    SectionIsApart(additional, ["additionalOperations"]);
    forall i, j | 0 <= i < j < |fixed| ensures fixed[i].tokens[0] != fixed[j].tokens[0] {
      var operations := Operations(item, 9);
      assert Rank(operations[i].0) < Rank(operations[j].0);
      FieldNamesDiffer(operations[i].0, operations[j].0);
    }
    SectionIsApart(fixed, []);
    forall i | 0 <= i < |fixed| ensures fixed[i].tokens[0] != "additionalOperations" {
      FieldNameIsShort(Operations(item, 9)[i].0);
    }
    ApartConcat(fixed, additional, 0);
  }

  lemma {:induction false} FieldNameIsShort(method_: Method)
    ensures |FieldName(method_)| < |"additionalOperations"|
  {
  }

  lemma {:induction false} FieldNamesDiffer(a: Method, b: Method)
    requires Rank(a) != Rank(b)
    ensures FieldName(a) != FieldName(b)
  {
    assert FieldName(a)[0] != FieldName(b)[0] || FieldName(a)[1] != FieldName(b)[1];
  }

  lemma {:induction false} ChildrenAreApart(node: Node)
    requires OwnKeysDistinct(node)
    ensures Apart(Children(node))
  {
    match node
    case ItemNode(item, _) => OperationsAreApart(item);
    case OperationNode(_, operation) => CallbacksAreApart(["callbacks"], operation.callbacks);
    case CallbackNode(Item(callback)) => SectionIsApart(EntriesBelow(callback), []);
    case EntryNode(_, Item(item)) => OperationsAreApart(item);
    case CallbackNode(Ref(_)) =>
    case EntryNode(_, Ref(_)) =>
  }

  lemma {:induction false} DocumentIsApart(document: Document)
    requires UniqueDocumentKeys(document)
    ensures Apart(DocumentBelow(document))
  {
    var paths := ItemsBelow(["paths"], document.paths, true);
    var webhooks := ItemsBelow(["webhooks"], document.webhooks, false);
    var items := ItemsBelow(["components", "pathItems"], document.pathItems, false);
    var callbacks := CallbacksBelow(["components", "callbacks"], document.callbacks);
    ItemsAreApart(["paths"], document.paths, true);
    ItemsAreApart(["webhooks"], document.webhooks, false);
    ItemsAreApart(["components", "pathItems"], document.pathItems, false);
    CallbacksAreApart(["components", "callbacks"], document.callbacks);
    assert "paths" != "webhooks" && "paths" != "components" && "webhooks" != "components" && "pathItems" != "callbacks";
    ApartConcat(paths, webhooks, 0);
    ApartConcat(items, callbacks, 1);
    ApartConcat(paths + webhooks, items + callbacks, 0);
    Associative(paths + webhooks, items, callbacks);
  }

  // --- Every object once, where it is written ---------------------------

  lemma {:induction false} EventsAtConcat(a: seq<Event>, b: seq<Event>, at: seq<string>)
    ensures EventsAt(a + b, at) == EventsAt(a, at) + EventsAt(b, at)
  {
    if b == [] {
      assert a + b == a;
    } else {
      EventsAtConcat(a, b[..|b| - 1], at);
      InitOfConcat(a, b);
    }
  }

  lemma {:induction false} AllAt(events: seq<Event>, at: seq<string>)
    requires forall i :: 0 <= i < |events| ==> events[i].at == at
    ensures EventsAt(events, at) == events
  {
    if events != [] {
      AllAt(events[..|events| - 1], at);
    }
  }

  lemma {:induction false} NoneAt(events: seq<Event>, at: seq<string>)
    requires forall i :: 0 <= i < |events| ==> events[i].at != at
    ensures EventsAt(events, at) == []
  {
    if events != [] {
      NoneAt(events[..|events| - 1], at);
    }
  }

  /** Everything a node's walk does is at or below the node. */
  lemma {:induction false} WalkStaysBelow(node: Node, at: seq<string>, visits: Visits)
    ensures forall i :: 0 <= i < |Walk(node, at, visits)| ==> at <= Walk(node, at, visits)[i].at
    decreases Size(node), 0
  {
    ChildrenAreSmaller(node);
    WalkAllStaysBelow(Children(node), at, visits);
  }

  lemma {:induction false} WalkAllStaysBelow(children: seq<Below>, at: seq<string>, visits: Visits)
    ensures forall i :: 0 <= i < |WalkAll(children, at, visits)| ==> at <= WalkAll(children, at, visits)[i].at
    decreases SizeAll(children), 1
  {
    if children != [] {
      var last := children[|children| - 1];
      SizeIsPositive(last.node);
      WalkAllStaysBelow(children[..|children| - 1], at, visits);
      WalkStaysBelow(last.node, at + last.tokens, visits);
    }
  }

  lemma {:induction false} NotBelow(node: Node, at: seq<string>, visits: Visits, elsewhere: seq<string>)
    requires !(at <= elsewhere)
    ensures EventsAt(Walk(node, at, visits), elsewhere) == []
  {
    WalkStaysBelow(node, at, visits);
    NoneAt(Walk(node, at, visits), elsewhere);
  }

  /** What the walk does at each location at or below a node is exactly what the
      object written there calls for, once, and nothing where the walk does not
      reach. */
  lemma {:induction false} WalkVisitsOnce(node: Node, at: seq<string>, visits: Visits, suffix: seq<string>)
    requires UniqueKeys(node)
    ensures EventsAt(Walk(node, at, visits), at + suffix) == Expected(Reach(node, at, visits, suffix), at + suffix)
    decreases Size(node), 0
  {
    hide EventsBefore, EventsAfter, Children, Size, OwnKeysDistinct, GoesBelow, EventsAt;
    ChildrenAreSmaller(node);
    ChildrenAreApart(node);
    OwnEventsAreHere(node, at);
    var before, after := EventsBefore(node, at), EventsAfter(node, at);
    var below := if GoesBelow(node, at, visits) then WalkAll(Children(node), at, visits) else [];
    if suffix == [] {
      assert at + suffix == at;
      ChildrenStayBelow(Children(node), at, visits);
      OwnOnly(before, below, after, at);
    } else {
      assert at + suffix != at by { assert |at + suffix| > |at|; }
      WalkAllVisitsOnce(Children(node), at, visits, suffix);
      BelowOnly(before, below, after, at, at + suffix);
      if !GoesBelow(node, at, visits) {
        NoneAt(below, at + suffix);
      }
    }
  }

  lemma {:induction false} OwnOnly(before: seq<Event>, below: seq<Event>, after: seq<Event>, at: seq<string>)
    requires (forall i :: 0 <= i < |before| ==> before[i].at == at)
      && (forall i :: 0 <= i < |after| ==> after[i].at == at)
    requires forall i :: 0 <= i < |below| ==> below[i].at != at
    ensures EventsAt(before + below + after, at) == before + after
  {
    hide EventsAt;
    EventsAtConcat(before + below, after, at);
    EventsAtConcat(before, below, at);
    AllAt(before, at);
    AllAt(after, at);
    NoneAt(below, at);
    assert before + [] == before;
  }

  lemma {:induction false} BelowOnly(
      before: seq<Event>, below: seq<Event>, after: seq<Event>, at: seq<string>, elsewhere: seq<string>)
    requires (forall i :: 0 <= i < |before| ==> before[i].at == at)
      && (forall i :: 0 <= i < |after| ==> after[i].at == at)
    requires elsewhere != at
    ensures EventsAt(before + below + after, elsewhere) == EventsAt(below, elsewhere)
  {
    hide EventsAt;
    EventsAtConcat(before + below, after, elsewhere);
    EventsAtConcat(before, below, elsewhere);
    NoneAt(before, elsewhere);
    NoneAt(after, elsewhere);
  }

  lemma {:induction false} OwnEventsAreHere(node: Node, at: seq<string>)
    ensures forall i :: 0 <= i < |EventsBefore(node, at)| ==> EventsBefore(node, at)[i].at == at
    ensures forall i :: 0 <= i < |EventsAfter(node, at)| ==> EventsAfter(node, at)[i].at == at
  {
  }

  lemma {:induction false} ChildrenStayBelow(children: seq<Below>, at: seq<string>, visits: Visits)
    requires forall i :: 0 <= i < |children| ==> children[i].tokens != []
    ensures forall i :: 0 <= i < |WalkAll(children, at, visits)| ==> WalkAll(children, at, visits)[i].at != at
  {
    if children != [] {
      var last := children[|children| - 1];
      ChildrenStayBelow(children[..|children| - 1], at, visits);
      WalkStaysBelow(last.node, at + last.tokens, visits);
    }
  }

  lemma {:induction false} WalkAllVisitsOnce(children: seq<Below>, at: seq<string>, visits: Visits, suffix: seq<string>)
    requires Apart(children) && UniqueKeysAll(children) && suffix != []
    ensures EventsAt(WalkAll(children, at, visits), at + suffix)
      == Expected(ReachAll(children, at, visits, suffix), at + suffix)
    decreases SizeAll(children), 1
  {
    hide Walk, Reach, Size, EventsAt, EventsBefore, EventsAfter, UniqueKeys;
    if children == [] {
      NoneAt([], at + suffix);
    } else {
      var before, last := children[..|children| - 1], children[|children| - 1];
      SizeIsPositive(last.node);
      EventsAtConcat(WalkAll(before, at, visits), Walk(last.node, at + last.tokens, visits), at + suffix);
      WalkAllVisitsOnce(before, at, visits, suffix);
      if last.tokens <= suffix {
        var rest := suffix[|last.tokens|..];
        assert suffix == last.tokens + rest;
        Associative(at, last.tokens, rest);
        WalkVisitsOnce(last.node, at + last.tokens, visits, rest);
        forall i | 0 <= i < |before| ensures !(before[i].tokens <= suffix) {
          assert before[i] == children[i];
          if before[i].tokens <= suffix {
            OnePrefix(before[i].tokens, last.tokens, suffix);
          }
        }
        NotReached(before, at, visits, suffix);
      } else {
        PrefixAfter(at, last.tokens, suffix);
        NotBelow(last.node, at + last.tokens, visits, at + suffix);
      }
    }
  }

  lemma {:induction false} PrefixAfter(at: seq<string>, tokens: seq<string>, suffix: seq<string>)
    ensures at + tokens <= at + suffix <==> tokens <= suffix
  {
    if at + tokens <= at + suffix {
      assert tokens == (at + tokens)[|at|..] && suffix == (at + suffix)[|at|..];
    }
  }

  lemma {:induction false} OnePrefix(a: seq<string>, b: seq<string>, whole: seq<string>)
    requires a <= whole && b <= whole
    ensures a <= b || b <= a
  {
  }

  lemma {:induction false} NotReached(children: seq<Below>, at: seq<string>, visits: Visits, suffix: seq<string>)
    requires forall i :: 0 <= i < |children| ==> !(children[i].tokens <= suffix)
    ensures ReachAll(children, at, visits, suffix) == None
  {
    if children != [] {
      NotReached(children[..|children| - 1], at, visits, suffix);
    }
  }

  /** The main result: at every location of a document whose keys are unique, the
      walk calls exactly the hooks of the object written there, once each and in
      order, or none where a declined Path Item or a reference is in between. */
  lemma {:induction false} DocumentIsVisitedOnce(document: Document, visits: Visits, at: seq<string>)
    requires UniqueDocumentKeys(document) && at != []
    ensures EventsAt(WalkAll(DocumentBelow(document), [], visits), at)
      == Expected(ReachAll(DocumentBelow(document), [], visits, at), at)
  {
    DocumentIsApart(document);
    WalkAllVisitsOnce(DocumentBelow(document), [], visits, at);
    assert [] + at == at;
  }

  // --- What follows: one pointer an object ------------------------------

  datatype Kind = ItemKind | OperationKind | WalkedKind | CallbackKind | EntryKind | ReferenceKind

  function KindOf(event: Event): Kind {
    match event
    case PathItemEvent(_, _, _) => ItemKind
    case OperationEvent(_, _, _) => OperationKind
    case OperationWalkedEvent(_, _) => WalkedKind
    case CallbackEvent(_, _) => CallbackKind
    case CallbackEntryEvent(_, _) => EntryKind
    case ReferenceEvent(_, _) => ReferenceKind
  }

  lemma {:induction false} EventsAtKeepsOrder(events: seq<Event>, i: nat, j: nat, at: seq<string>)
    returns (a: nat, b: nat)
    requires i < j < |events| && events[i].at == at && events[j].at == at
    ensures a < b < |EventsAt(events, at)| && EventsAt(events, at)[a] == events[i]
      && EventsAt(events, at)[b] == events[j]
  {
    var before := events[..|events| - 1];
    if j == |before| {
      a := EventsAtHolds(before, i, at);
      b := |EventsAt(before, at)|;
    } else {
      a, b := EventsAtKeepsOrder(before, i, j, at);
    }
  }

  lemma {:induction false} EventsAtHolds(events: seq<Event>, i: nat, at: seq<string>) returns (a: nat)
    requires i < |events| && events[i].at == at
    ensures a < |EventsAt(events, at)| && EventsAt(events, at)[a] == events[i]
  {
    var before := events[..|events| - 1];
    if i == |before| {
      a := |EventsAt(before, at)|;
    } else {
      a := EventsAtHolds(before, i, at);
    }
  }

  /** No two objects of one kind are handed over at one pointer. */
  lemma {:induction false} PointersAreDistinct(document: Document, visits: Visits, i: nat, j: nat)
    requires UniqueDocumentKeys(document)
    requires i < j < |WalkAll(DocumentBelow(document), [], visits)|
    ensures var events := WalkAll(DocumentBelow(document), [], visits);
      KindOf(events[i]) == KindOf(events[j]) ==> PointerTo(events[i].at) != PointerTo(events[j].at)
  {
    var events := WalkAll(DocumentBelow(document), [], visits);
    PointersTellApart(events[i].at, events[j].at);
    if events[i].at == events[j].at {
      var at := events[i].at;
      var a, b := EventsAtKeepsOrder(events, i, j, at);
      RootHasNoEvents(document, visits);
      DocumentIsVisitedOnce(document, visits, at);
      OneOfEachKind(ReachAll(DocumentBelow(document), [], visits, at), at);
    }
  }

  lemma {:induction false} OneOfEachKind(reached: Option<Node>, at: seq<string>)
    ensures forall a, b :: 0 <= a < b < |Expected(reached, at)| ==>
      KindOf(Expected(reached, at)[a]) != KindOf(Expected(reached, at)[b])
  {
  }

  lemma {:induction false} RootHasNoEvents(document: Document, visits: Visits)
    requires UniqueDocumentKeys(document)
    ensures forall i :: 0 <= i < |WalkAll(DocumentBelow(document), [], visits)| ==>
      WalkAll(DocumentBelow(document), [], visits)[i].at != []
  {
    DocumentIsApart(document);
    ChildrenStayBelow(DocumentBelow(document), [], visits);
  }

  // --- What follows: operations bracket ---------------------------------

  /** The operations opened and not closed after `events`, innermost last, each
      with its location: `None` where one closes out of turn or an event falls
      outside the innermost open operation. */
  function Nest(events: seq<Event>, open: seq<(seq<string>, Operation)>): Option<seq<(seq<string>, Operation)>> {
    if events == [] then Some(open)
    else
      var event := events[0];
      if open != [] && !(open[|open| - 1].0 <= event.at) then None
      else match event
        case OperationEvent(at, _, operation) => Nest(events[1..], open + [(at, operation)])
        case OperationWalkedEvent(at, operation) =>
          if open != [] && open[|open| - 1] == (at, operation) then Nest(events[1..], open[..|open| - 1]) else None
        case _ => Nest(events[1..], open)
  }

  lemma {:induction false} NestConcat(a: seq<Event>, b: seq<Event>, open: seq<(seq<string>, Operation)>)
    requires Nest(a, open).Some?
    ensures Nest(a + b, open) == Nest(b, Nest(a, open).value)
  {
    if a == [] {
      assert a + b == b;
    } else {
      TailOfConcat(a, b);
      match a[0]
      case OperationEvent(at, _, operation) => NestConcat(a[1..], b, open + [(at, operation)]);
      case OperationWalkedEvent(_, _) => NestConcat(a[1..], b, open[..|open| - 1]);
      case _ => NestConcat(a[1..], b, open);
    }
  }

  ghost predicate Encloses(open: seq<(seq<string>, Operation)>, at: seq<string>) {
    open != [] ==> open[|open| - 1].0 <= at
  }

  /** To any depth of callbacks, each operation's two hooks bracket what is below
      it, and nothing else: the trace is well nested. */
  lemma {:induction false} WalkIsNested(
      node: Node, at: seq<string>, visits: Visits, open: seq<(seq<string>, Operation)>)
    requires Encloses(open, at)
    ensures Nest(Walk(node, at, visits), open) == Some(open)
    decreases Size(node), 0
  {
    hide Size, Children, Nest;
    ChildrenAreSmaller(node);
    var inner := if node.OperationNode? then open + [(at, node.operation)] else open;
    var before, after := EventsBefore(node, at), EventsAfter(node, at);
    var below := if GoesBelow(node, at, visits) then WalkAll(Children(node), at, visits) else [];
    OpensAndCloses(node, at, open);
    NestNothing(inner);
    WalkAllIsNested(Children(node), at, visits, inner);
    NestConcat(before, below, open);
    NestConcat(before + below, after, open);
  }

  lemma {:induction false} NestNothing(open: seq<(seq<string>, Operation)>)
    ensures Nest([], open) == Some(open)
  {
  }

  lemma {:induction false} OpensAndCloses(node: Node, at: seq<string>, open: seq<(seq<string>, Operation)>)
    requires Encloses(open, at)
    ensures var inner := if node.OperationNode? then open + [(at, node.operation)] else open;
      Nest(EventsBefore(node, at), open) == Some(inner) && Nest(EventsAfter(node, at), inner) == Some(open)
  {
    var before, after := EventsBefore(node, at), EventsAfter(node, at);
    if node.OperationNode? {
      assert before[1..] == [] && after[1..] == [] && at <= at;
      assert (open + [(at, node.operation)])[..|open|] == open;
    } else if node.EntryNode? {
      assert before[1..] == [before[1]] && before[1..][1..] == [];
      assert Nest(before[1..], open) == Some(open);
    } else {
      assert before[1..] == [];
    }
  }

  lemma {:induction false} WalkAllIsNested(
      children: seq<Below>, at: seq<string>, visits: Visits, open: seq<(seq<string>, Operation)>)
    requires Encloses(open, at)
    ensures Nest(WalkAll(children, at, visits), open) == Some(open)
    decreases SizeAll(children), 1
  {
    if children != [] {
      var last := children[|children| - 1];
      SizeIsPositive(last.node);
      WalkAllIsNested(children[..|children| - 1], at, visits, open);
      WalkIsNested(last.node, at + last.tokens, visits, open);
      NestConcat(WalkAll(children[..|children| - 1], at, visits), Walk(last.node, at + last.tokens, visits), open);
    }
  }
}
