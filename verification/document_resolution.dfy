/** What a location of the walk points at, by the document's own field names. RFC 6901
    evaluates a pointer by looking each token up in the value reached so far, which
    knows nothing of the walk of crates/kynos-openapi/src/visit.rs. */
module DocumentResolution {
  import opened DocumentWalk
  import opened Sequences
  import opened Options
  import opened Dictionaries

  // --- Values -----------------------------------------------------------

  /** What a pointer may reach: an object the walk has a hook for, or the document and
      the maps in between. */
  datatype Value =
    | DocumentValue(document: Document)
    | ComponentsValue(document: Document)
    | PathsValue(paths: Map<PathItem>)
    | ItemsValue(items: Map<PathItem>)
    | CallbacksValue(callbacks: Map<RefOr<Callback>>)
    | AdditionalValue(item: PathItem)
    | NodeValue(node: Node)

  /** The one of the first `count` methods that is written under `name`. */
  function MethodNamed(name: string, count: nat): (named: Option<Method>)
    requires count <= 9
    ensures named.Some? ==> FieldName(named.value) == name
  {
    if count == 0 then None
    else if FieldName(Methods(9)[count - 1]) == name then Some(Methods(9)[count - 1])
    else MethodNamed(name, count - 1)
  }

  function DocumentMember(document: Document, name: string): Option<Value> {
    if name == "paths" then Some(PathsValue(document.paths))
    else if name == "webhooks" then Some(ItemsValue(document.webhooks))
    else if name == "components" then Some(ComponentsValue(document))
    else None
  }

  function ComponentsMember(document: Document, name: string): Option<Value> {
    if name == "pathItems" then Some(ItemsValue(document.pathItems))
    else if name == "callbacks" then Some(CallbacksValue(document.callbacks))
    else None
  }

  function ItemMember(item: PathItem, name: string): Option<Value> {
    if name == "additionalOperations" then Some(AdditionalValue(item))
    else match MethodNamed(name, 9)
      case None => None
      case Some(method_) => OperationValue(item, Slot(item, method_))
  }

  function OperationValue(item: PathItem, operation: Option<Operation>): Option<Value> {
    match operation
    case None => None
    case Some(operation) => Some(NodeValue(OperationNode(item, operation)))
  }

  function NodeMember(node: Node, name: string): Option<Value> {
    match node
    case ItemNode(item, _) => ItemMember(item, name)
    case OperationNode(_, operation) => if name == "callbacks" then Some(CallbacksValue(operation.callbacks)) else None
    case CallbackNode(Item(callback)) =>
      (match Lookup(callback.items, name) case None => None case Some(entry) => Some(NodeValue(EntryNode(name, entry))))
    case EntryNode(_, Item(item)) => ItemMember(item, name)
    case CallbackNode(Ref(_)) => None
    case EntryNode(_, Ref(_)) => None
  }

  /** The member of `value` named `name`. */
  function Member(value: Value, name: string): Option<Value> {
    match value
    case DocumentValue(document) => DocumentMember(document, name)
    case ComponentsValue(document) => ComponentsMember(document, name)
    case PathsValue(paths) =>
      (match Lookup(paths, name) case None => None case Some(item) => Some(NodeValue(ItemNode(item, Some(name)))))
    case ItemsValue(items) =>
      (match Lookup(items, name) case None => None case Some(item) => Some(NodeValue(ItemNode(item, None))))
    case CallbacksValue(callbacks) =>
      (match Lookup(callbacks, name) case None => None case Some(callback) => Some(NodeValue(CallbackNode(callback))))
    case AdditionalValue(item) => OperationValue(item, Lookup(item.additional, name))
    case NodeValue(node) => NodeMember(node, name)
  }

  /** The value the tokens lead to from `value` (section 4 of RFC 6901). */
  function Resolve(value: Value, tokens: seq<string>): Option<Value>
    decreases |tokens|
  {
    if tokens == [] then Some(value)
    else match Member(value, tokens[0])
      case None => None
      case Some(member) => Resolve(member, tokens[1..])
  }

  function AsNode(value: Option<Value>): Option<Node> {
    match value
    case Some(NodeValue(node)) => Some(node)
    case _ => None
  }

  lemma {:induction false} ResolvesOn(value: Value, first: seq<string>, rest: seq<string>)
    ensures match Resolve(value, first) {
      case None => Resolve(value, first + rest) == None
      case Some(member) => Resolve(value, first + rest) == Resolve(member, rest)
    }
    decreases |first|
  {
    if first == [] {
      assert first + rest == rest;
    } else {
      TailOfConcat(first, rest);
      match Member(value, first[0])
      case None =>
      case Some(member) => ResolvesOn(member, first[1..], rest);
    }
  }

  // --- Maps -------------------------------------------------------------

  lemma {:induction false} IsLookedUp<T>(dict: Map<T>, k: nat)
    requires k < |dict| && DistinctKeys(dict)
    ensures Lookup(dict, dict[k].key) == Some(dict[k].value)
  {
    EntryIsFound(dict, k);
  }

  lemma {:induction false} IsInPlace<T>(dict: Map<T>, key: string) returns (k: nat)
    requires DistinctKeys(dict) && Lookup(dict, key).Some?
    ensures k < |dict| && dict[k].key == key && Lookup(dict, key) == Some(dict[k].value)
  {
    k :| 0 <= k < |dict| && dict[k].key == key;
    EntryIsFound(dict, k);
  }

  // --- The children are the members -------------------------------------

  /** The children are the nodes to be reached from `value`, each at its own tokens,
      and no other node is reached but through them. */
  ghost predicate Leads(value: Value, children: seq<Below>) {
    && AllResolve(value, children)
    && forall tokens :: tokens != [] && AsNode(Resolve(value, tokens)).Some? ==> IsThrough(children, tokens)
  }

  ghost predicate AllResolve(value: Value, children: seq<Below>) {
    forall i :: 0 <= i < |children| ==> Resolve(value, children[i].tokens) == Some(NodeValue(children[i].node))
  }

  ghost predicate IsThrough(children: seq<Below>, tokens: seq<string>) {
    exists i :: 0 <= i < |children| && children[i].tokens <= tokens
  }

  lemma {:induction false} OneToken(value: Value, token: string)
    ensures Resolve(value, [token]) == Member(value, token)
  {
  }

  /** A map of nodes leads to its entries. */
  lemma {:induction false} EntriesLead<T>(value: Value, dict: Map<T>, children: seq<Below>)
    requires DistinctKeys(dict) && |children| == |dict|
    requires forall k :: 0 <= k < |dict| ==> children[k].tokens == [dict[k].key]
    requires forall k :: 0 <= k < |dict| ==> Member(value, dict[k].key) == Some(NodeValue(children[k].node))
    requires forall name :: Member(value, name).Some? ==> Lookup(dict, name).Some?
    ensures Leads(value, children)
  {
    hide Member;
    forall tokens | tokens != [] && AsNode(Resolve(value, tokens)).Some? ensures IsThrough(children, tokens) {
      var k := IsInPlace(dict, tokens[0]);
      assert children[k].tokens <= tokens;
    }
    forall i | 0 <= i < |children| ensures Resolve(value, children[i].tokens) == Some(NodeValue(children[i].node)) {
      OneToken(value, dict[i].key);
    }
  }

  function Prefixed(section: seq<string>, children: seq<Below>): (r: seq<Below>)
    ensures |r| == |children|
    ensures forall i :: 0 <= i < |r| ==> r[i] == Below(section + children[i].tokens, children[i].node)
  {
    seq(|children|, i requires 0 <= i < |children| => Below(section + children[i].tokens, children[i].node))
  }

  lemma {:induction false} SameChildren(a: seq<Below>, b: seq<Below>)
    requires |a| == |b| && forall i :: 0 <= i < |a| ==> a[i].tokens == b[i].tokens && a[i].node == b[i].node
    ensures a == b
  {
    assert forall i :: 0 <= i < |a| ==> a[i] == b[i];
  }

  /** What a section of `value` leads to is reached under its name. */
  lemma {:induction false} SectionLeads(value: Value, name: string, section: Value, children: seq<Below>)
    requires Leads(section, children) && Member(value, name) == Some(section) && !section.NodeValue?
    ensures var below := Prefixed([name], children);
      && AllResolve(value, below)
      && (forall tokens :: tokens != [] && tokens[0] == name && AsNode(Resolve(value, tokens)).Some? ==>
            IsThrough(below, tokens))
  {
    hide Member;
    var below := Prefixed([name], children);
    OneToken(value, name);
    forall i | 0 <= i < |below| ensures Resolve(value, below[i].tokens) == Some(NodeValue(below[i].node)) {
      ResolvesOn(value, [name], children[i].tokens);
    }
    forall tokens | tokens != [] && tokens[0] == name && AsNode(Resolve(value, tokens)).Some?
      ensures IsThrough(below, tokens)
    {
      assert Resolve(section, tokens[1..]) == Resolve(value, tokens);
      assert tokens[1..] != [];
      var i :| 0 <= i < |children| && children[i].tokens <= tokens[1..];
      assert tokens == [name] + tokens[1..];
      assert below[i].tokens <= tokens;
    }
  }

  // --- Each kind of node ------------------------------------------------

  lemma {:induction false} FieldIsNamed(method_: Method, count: nat)
    requires Rank(method_) < count <= 9
    ensures MethodNamed(FieldName(method_), count) == Some(method_)
  {
    hide FieldName;
    var last := Methods(9)[count - 1];
    assert Rank(last) == count - 1;
    if Rank(method_) < count - 1 {
      FieldNamesDiffer(method_, last);
      FieldIsNamed(method_, count - 1);
    }
  }

  lemma {:induction false} AdditionalLeads(item: PathItem)
    requires DistinctKeys(item.additional)
    ensures Leads(AdditionalValue(item), AdditionalEntries(item))
  {
    forall k | 0 <= k < |item.additional|
      ensures Member(AdditionalValue(item), item.additional[k].key) == Some(NodeValue(AdditionalEntries(item)[k].node))
    {
      IsLookedUp(item.additional, k);
    }
    EntriesLead(AdditionalValue(item), item.additional, AdditionalEntries(item));
  }

  function AdditionalEntries(item: PathItem): (r: seq<Below>)
    ensures |r| == |item.additional|
  {
    seq(|item.additional|, i requires 0 <= i < |item.additional| =>
      Below([item.additional[i].key], OperationNode(item, item.additional[i].value)))
  }

  /** A Path Item, wherever it is written, leads to its operations. */
  lemma {:induction false} ItemLeads(node: Node, item: PathItem)
    requires DistinctKeys(item.additional)
    requires Children(node) == OperationsBelow(item)
    requires forall name :: NodeMember(node, name) == ItemMember(item, name)
    ensures Leads(NodeValue(node), Children(node))
  {
    var value := NodeValue(node);
    var fixed, additional := FixedBelow(item, Operations(item, 9)), AdditionalBelow(item);
    AdditionalIsSection(node, item);
    FixedLead(node, item);
    hide Operations, ItemMember, NodeMember, Resolve, AllResolve, Leads, AdditionalBelow, FixedBelow, MethodNamed,
      IsThrough;
    assert Children(node) == fixed + additional;
    forall tokens | tokens != [] && AsNode(Resolve(value, tokens)).Some? ensures IsThrough(fixed + additional, tokens) {
      EitherThrough(fixed, additional, tokens);
    }
    EitherLeads(value, fixed, additional);
    LeadsIf(value, fixed + additional);
  }

  lemma {:induction false} EitherThrough(a: seq<Below>, b: seq<Below>, tokens: seq<string>)
    ensures IsThrough(a, tokens) || IsThrough(b, tokens) ==> IsThrough(a + b, tokens)
  {
    var ab := a + b;
    if i :| 0 <= i < |a| && a[i].tokens <= tokens {
      assert ab[i].tokens <= tokens;
    } else if i :| 0 <= i < |b| && b[i].tokens <= tokens {
      assert ab[|a| + i].tokens <= tokens;
    }
  }

  lemma {:induction false} EitherLeads(value: Value, a: seq<Below>, b: seq<Below>)
    requires AllResolve(value, a) && AllResolve(value, b)
    ensures AllResolve(value, a + b)
  {
    hide Resolve;
  }

  lemma {:induction false} AdditionalIsSection(node: Node, item: PathItem)
    requires DistinctKeys(item.additional)
    requires forall name :: NodeMember(node, name) == ItemMember(item, name)
    ensures var value, additional := NodeValue(node), AdditionalBelow(item);
      && AllResolve(value, additional)
      && forall tokens ::
           tokens != [] && tokens[0] == "additionalOperations" && AsNode(Resolve(value, tokens)).Some? ==>
             IsThrough(additional, tokens)
  {
    AdditionalLeads(item);
    assert Member(NodeValue(node), "additionalOperations") == Some(AdditionalValue(item));
    SameChildren(Prefixed(["additionalOperations"], AdditionalEntries(item)), AdditionalBelow(item));
    hide Leads, Resolve, Member, NodeMember, ItemMember, IsThrough;
    SectionLeads(NodeValue(node), "additionalOperations", AdditionalValue(item), AdditionalEntries(item));
  }

  lemma {:induction false} LeadsIf(value: Value, children: seq<Below>)
    requires AllResolve(value, children)
    requires forall tokens :: tokens != [] && AsNode(Resolve(value, tokens)).Some? ==> IsThrough(children, tokens)
    ensures Leads(value, children)
  {
  }

  lemma {:induction false} FixedLead(node: Node, item: PathItem)
    requires forall name :: NodeMember(node, name) == ItemMember(item, name)
    ensures var fixed := FixedBelow(item, Operations(item, 9));
      && AllResolve(NodeValue(node), fixed)
      && forall tokens ::
           tokens != [] && tokens[0] != "additionalOperations" && AsNode(Resolve(NodeValue(node), tokens)).Some? ==>
             IsThrough(fixed, tokens)
  {
    var value, operations := NodeValue(node), Operations(item, 9);
    var fixed := FixedBelow(item, operations);
    OperationsAreInOrder(item, 9);
    hide Operations, FieldName, MethodNamed, Slot, NodeMember, Rank;
    forall i | 0 <= i < |fixed| ensures Resolve(value, fixed[i].tokens) == Some(NodeValue(fixed[i].node)) {
      FieldIsNamed(operations[i].0, 9);
      FieldNameIsShort(operations[i].0);
      OneToken(value, FieldName(operations[i].0));
    }
    forall tokens | tokens != [] && tokens[0] != "additionalOperations" && AsNode(Resolve(value, tokens)).Some?
      ensures IsThrough(fixed, tokens)
    {
      var method_ := MethodNamed(tokens[0], 9).value;
      RankIsLow(method_);
      assert (method_, Slot(item, method_).value) in operations;
      var i :| 0 <= i < |operations| && operations[i] == (method_, Slot(item, method_).value);
      assert fixed[i].tokens <= tokens;
    }
  }

  lemma {:induction false} RankIsLow(method_: Method)
    ensures Rank(method_) < 9
  {
  }

  lemma {:induction false} CallbacksLead(callbacks: Map<RefOr<Callback>>)
    requires DistinctKeys(callbacks)
    ensures Leads(CallbacksValue(callbacks), CallbacksBelow([], callbacks))
  {
    forall k | 0 <= k < |callbacks|
      ensures Member(CallbacksValue(callbacks), callbacks[k].key)
        == Some(NodeValue(CallbacksBelow([], callbacks)[k].node))
    {
      IsLookedUp(callbacks, k);
    }
    EntriesLead(CallbacksValue(callbacks), callbacks, CallbacksBelow([], callbacks));
  }

  lemma {:induction false} CallbackLeads(callback: Callback)
    requires DistinctKeys(callback.items)
    ensures Leads(NodeValue(CallbackNode(Item(callback))), EntriesBelow(callback))
  {
    var value := NodeValue(CallbackNode(Item(callback)));
    forall k | 0 <= k < |callback.items|
      ensures Member(value, callback.items[k].key) == Some(NodeValue(EntriesBelow(callback)[k].node))
    {
      IsLookedUp(callback.items, k);
    }
    EntriesLead(value, callback.items, EntriesBelow(callback));
  }

  lemma {:induction false} OperationLeads(node: Node)
    requires node.OperationNode? && DistinctKeys(node.operation.callbacks)
    ensures Leads(NodeValue(node), Children(node))
  {
    var value, callbacks := NodeValue(node), node.operation.callbacks;
    CallbacksLead(callbacks);
    SectionLeads(value, "callbacks", CallbacksValue(callbacks), CallbacksBelow([], callbacks));
    SameChildren(Prefixed(["callbacks"], CallbacksBelow([], callbacks)), Children(node));
  }

  /** What is written below a node is what its members lead to. */
  lemma {:induction false} NodeLeads(node: Node)
    requires OwnKeysDistinct(node)
    ensures Leads(NodeValue(node), Children(node))
  {
    hide Leads;
    match node
    case ItemNode(item, _) => ItemLeads(node, item);
    case OperationNode(_, _) => OperationLeads(node);
    case CallbackNode(Item(callback)) => CallbackLeads(callback);
    case EntryNode(_, Item(item)) => ItemLeads(node, item);
    case CallbackNode(Ref(_)) => NothingLeads(node);
    case EntryNode(_, Ref(_)) => NothingLeads(node);
  }

  lemma {:induction false} NothingLeads(node: Node)
    requires Children(node) == [] && forall name :: NodeMember(node, name) == None
    ensures Leads(NodeValue(node), Children(node))
  {
  }

  // --- The document -----------------------------------------------------

  lemma {:induction false} PathsLead(paths: Map<PathItem>)
    requires DistinctKeys(paths)
    ensures Leads(PathsValue(paths), ItemsBelow([], paths, true))
  {
    forall k | 0 <= k < |paths|
      ensures Member(PathsValue(paths), paths[k].key) == Some(NodeValue(ItemsBelow([], paths, true)[k].node))
    {
      IsLookedUp(paths, k);
    }
    EntriesLead(PathsValue(paths), paths, ItemsBelow([], paths, true));
  }

  lemma {:induction false} ItemsLead(items: Map<PathItem>)
    requires DistinctKeys(items)
    ensures Leads(ItemsValue(items), ItemsBelow([], items, false))
  {
    forall k | 0 <= k < |items|
      ensures Member(ItemsValue(items), items[k].key) == Some(NodeValue(ItemsBelow([], items, false)[k].node))
    {
      IsLookedUp(items, k);
    }
    EntriesLead(ItemsValue(items), items, ItemsBelow([], items, false));
  }

  /** Two sections of one value, under names of their own. */
  lemma {:induction false} BothLead(value: Value, names: set<string>, a: seq<Below>, more: set<string>, b: seq<Below>)
    requires LeadsUnder(value, names, a) && LeadsUnder(value, more, b)
    ensures LeadsUnder(value, names + more, a + b)
  {
    hide Resolve, AllResolve, IsThrough;
    EitherLeads(value, a, b);
    forall tokens | tokens != [] && tokens[0] in names + more && AsNode(Resolve(value, tokens)).Some?
      ensures IsThrough(a + b, tokens)
    {
      EitherThrough(a, b, tokens);
    }
  }

  ghost predicate LeadsUnder(value: Value, names: set<string>, children: seq<Below>) {
    && AllResolve(value, children)
    && forall tokens :: tokens != [] && tokens[0] in names && AsNode(Resolve(value, tokens)).Some? ==>
         IsThrough(children, tokens)
  }

  lemma {:induction false} ComponentsLead(document: Document)
    requires DistinctKeys(document.pathItems) && DistinctKeys(document.callbacks)
    ensures Leads(ComponentsValue(document),
      ItemsBelow(["pathItems"], document.pathItems, false) + CallbacksBelow(["callbacks"], document.callbacks))
  {
    var value := ComponentsValue(document);
    var items, callbacks := ItemsBelow([], document.pathItems, false), CallbacksBelow([], document.callbacks);
    var first, second := Prefixed(["pathItems"], items), Prefixed(["callbacks"], callbacks);
    SameChildren(first, ItemsBelow(["pathItems"], document.pathItems, false));
    SameChildren(second, CallbacksBelow(["callbacks"], document.callbacks));
    ItemsLead(document.pathItems);
    CallbacksLead(document.callbacks);
    assert "pathItems" != "callbacks";
    SectionLeads(value, "pathItems", ItemsValue(document.pathItems), items);
    SectionLeads(value, "callbacks", CallbacksValue(document.callbacks), callbacks);
    hide Leads;
    BothLead(value, {"pathItems"}, first, {"callbacks"}, second);
    OnlyNames(value, {"pathItems"} + {"callbacks"}, first + second);
  }

  lemma {:induction false} OnlyNames(value: Value, names: set<string>, children: seq<Below>)
    requires LeadsUnder(value, names, children)
    requires forall name :: Member(value, name).Some? ==> name in names
    ensures Leads(value, children)
  {
    hide Member;
  }

  /** A section is all that `value` leads to under the section's name. */
  lemma {:induction false} UnderName(value: Value, name: string, section: Value, children: seq<Below>)
    requires Leads(section, children) && Member(value, name) == Some(section) && !section.NodeValue?
    ensures LeadsUnder(value, {name}, Prefixed([name], children))
  {
    hide Leads, Resolve, Member, IsThrough;
    SectionLeads(value, name, section, children);
  }

  /** What the walk starts from is what the document's own members lead to. */
  lemma {:induction false} DocumentLeads(document: Document)
    requires UniqueDocumentKeys(document)
    ensures Leads(DocumentValue(document), DocumentBelow(document))
  {
    var value := DocumentValue(document);
    var paths, hooks := ItemsBelow([], document.paths, true), ItemsBelow([], document.webhooks, false);
    var items := ItemsBelow(["pathItems"], document.pathItems, false);
    var callbacks := CallbacksBelow(["callbacks"], document.callbacks);
    PathsLead(document.paths);
    ItemsLead(document.webhooks);
    ComponentsLead(document);
    SectionsOfDocument(document);
    DocumentMembers(document);
    hide Leads, LeadsUnder, Member, ItemsBelow, CallbacksBelow, Prefixed, DocumentBelow, UniqueDocumentKeys;
    UnderName(value, "paths", PathsValue(document.paths), paths);
    UnderName(value, "webhooks", ItemsValue(document.webhooks), hooks);
    UnderName(value, "components", ComponentsValue(document), items + callbacks);
    var first, second := Prefixed(["paths"], paths), Prefixed(["webhooks"], hooks);
    var third := Prefixed(["components"], items + callbacks);
    BothLead(value, {"paths"}, first, {"webhooks"}, second);
    BothLead(value, {"paths"} + {"webhooks"}, first + second, {"components"}, third);
    OnlyNames(value, {"paths"} + {"webhooks"} + {"components"}, first + second + third);
  }

  lemma {:induction false} DocumentMembers(document: Document)
    ensures var value := DocumentValue(document);
      && Member(value, "paths") == Some(PathsValue(document.paths))
      && Member(value, "webhooks") == Some(ItemsValue(document.webhooks))
      && Member(value, "components") == Some(ComponentsValue(document))
      && forall name :: Member(value, name).Some? ==> name in {"paths"} + {"webhooks"} + {"components"}
  {
    assert "paths" != "webhooks" && "paths" != "components" && "webhooks" != "components";
  }

  lemma {:induction false} SectionsOfDocument(document: Document)
    ensures var paths, hooks := ItemsBelow([], document.paths, true), ItemsBelow([], document.webhooks, false);
      var items := ItemsBelow(["pathItems"], document.pathItems, false);
      var callbacks := CallbacksBelow(["callbacks"], document.callbacks);
      DocumentBelow(document)
        == Prefixed(["paths"], paths) + Prefixed(["webhooks"], hooks) + Prefixed(["components"], items + callbacks)
  {
    var items := ItemsBelow(["pathItems"], document.pathItems, false);
    var callbacks := CallbacksBelow(["callbacks"], document.callbacks);
    var first := ItemsBelow(["components", "pathItems"], document.pathItems, false);
    var second := CallbacksBelow(["components", "callbacks"], document.callbacks);
    SameChildren(Prefixed(["components"], items + callbacks), first + second);
    SameChildren(
      Prefixed(["paths"], ItemsBelow([], document.paths, true)),
      ItemsBelow(["paths"], document.paths, true));
    SameChildren(
      Prefixed(["webhooks"], ItemsBelow([], document.webhooks, false)),
      ItemsBelow(["webhooks"], document.webhooks, false));
    Associative(RoutesBelow(document), first, second);
  }

  // --- What the walk reaches is what the pointer resolves to ------------

  /** The value a pointer comes by is a Path Item the hook declines. */
  ghost predicate Declines(value: Option<Value>, at: seq<string>, visits: Visits) {
    AsNode(value).Some? && !GoesBelow(AsNode(value).value, at, visits)
  }

  /** The way along `tokens` from `value` at `at` comes by such a Path Item. */
  ghost predicate IsSkipped(value: Value, at: seq<string>, visits: Visits, tokens: seq<string>) {
    exists k :: 0 <= k < |tokens| && Declines(Resolve(value, tokens[..k]), at + tokens[..k], visits)
  }

  ghost function Found(value: Value, at: seq<string>, visits: Visits, tokens: seq<string>): Option<Node> {
    if IsSkipped(value, at, visits, tokens) then None else AsNode(Resolve(value, tokens))
  }

  /** What is found through a child is found from it, unless `value` is declined. */
  lemma {:induction false} FoundThrough(
      value: Value, children: seq<Below>, i: nat, at: seq<string>, visits: Visits, tokens: seq<string>)
    requires Leads(value, children) && Apart(children) && i < |children| && children[i].tokens <= tokens
    ensures var first, node := children[i].tokens, children[i].node;
      Found(value, at, visits, tokens)
        == if Declines(Some(value), at, visits) then None
           else Found(NodeValue(node), at + first, visits, tokens[|first|..])
  {
    var first, node := children[i].tokens, children[i].node;
    assert tokens == first + tokens[|first|..];
    ResolvesOn(value, first, tokens[|first|..]);
    hide Resolve, Declines, IsSkipped;
    SkippedThrough(value, children, i, at, visits, tokens);
  }

  lemma {:induction false} SkippedThrough(
      value: Value, children: seq<Below>, i: nat, at: seq<string>, visits: Visits, tokens: seq<string>)
    requires Leads(value, children) && Apart(children) && i < |children| && children[i].tokens <= tokens
    ensures var first, node := children[i].tokens, children[i].node;
      IsSkipped(value, at, visits, tokens)
      <==> Declines(Some(value), at, visits) || IsSkipped(NodeValue(node), at + first, visits, tokens[|first|..])
  {
    var first, node := children[i].tokens, children[i].node;
    assert first != [] && Resolve(value, first) == Some(NodeValue(node));
    hide Resolve, Declines;
    if k :| 0 <= k < |tokens| && Declines(Resolve(value, tokens[..k]), at + tokens[..k], visits) {
      DeclinedThrough(value, children, i, at, visits, tokens, k);
    }
    hide Leads, Apart, IsSkipped;
    if Declines(Some(value), at, visits) {
      SkippedFrom(value, at, visits, tokens);
    }
    if IsSkipped(NodeValue(node), at + first, visits, tokens[|first|..]) {
      SkippedBeyond(value, first, node, at, visits, tokens);
    }
  }

  lemma {:induction false} SkippedFrom(value: Value, at: seq<string>, visits: Visits, tokens: seq<string>)
    requires tokens != [] && Declines(Some(value), at, visits)
    ensures IsSkipped(value, at, visits, tokens)
  {
    StartsThere(value, at, tokens);
    assert Declines(Resolve(value, tokens[..0]), at + tokens[..0], visits);
  }

  lemma {:induction false} SkippedBeyond(
      value: Value, first: seq<string>, node: Node, at: seq<string>, visits: Visits, tokens: seq<string>)
    requires first <= tokens && Resolve(value, first) == Some(NodeValue(node))
    requires IsSkipped(NodeValue(node), at + first, visits, tokens[|first|..])
    ensures IsSkipped(value, at, visits, tokens)
  {
    hide Resolve, Declines;
    var rest := tokens[|first|..];
    var k :| 0 <= k < |rest| && Declines(Resolve(NodeValue(node), rest[..k]), at + first + rest[..k], visits);
    Onward(value, first, node, at, tokens, |first| + k);
    assert Declines(Resolve(value, tokens[..|first| + k]), at + tokens[..|first| + k], visits);
  }

  lemma {:induction false} DeclinedThrough(
      value: Value, children: seq<Below>, i: nat, at: seq<string>, visits: Visits, tokens: seq<string>, k: nat)
    requires Leads(value, children) && Apart(children) && i < |children| && children[i].tokens <= tokens
    requires k < |tokens| && Declines(Resolve(value, tokens[..k]), at + tokens[..k], visits)
    ensures var first, node := children[i].tokens, children[i].node;
      Declines(Some(value), at, visits) || IsSkipped(NodeValue(node), at + first, visits, tokens[|first|..])
  {
    var first, node := children[i].tokens, children[i].node;
    assert Resolve(value, first) == Some(NodeValue(node));
    hide Resolve;
    if k == 0 {
      StartsThere(value, at, tokens);
    } else if k < |first| {
      NoneBetween(value, children, i, tokens, k);
    } else {
      hide Leads, Apart, Declines;
      var rest := tokens[|first|..];
      Onward(value, first, node, at, tokens, k);
      assert Declines(Resolve(NodeValue(node), rest[..k - |first|]), at + first + rest[..k - |first|], visits);
    }
  }

  lemma {:induction false} StartsThere(value: Value, at: seq<string>, tokens: seq<string>)
    ensures Resolve(value, tokens[..0]) == Some(value) && at + tokens[..0] == at
  {
  }

  lemma {:induction false} Onward(
      value: Value, first: seq<string>, node: Node, at: seq<string>, tokens: seq<string>, k: nat)
    requires first <= tokens && |first| <= k <= |tokens| && Resolve(value, first) == Some(NodeValue(node))
    ensures var rest := tokens[|first|..];
      && Resolve(value, tokens[..k]) == Resolve(NodeValue(node), rest[..k - |first|])
      && at + tokens[..k] == at + first + rest[..k - |first|]
  {
    var rest := tokens[|first|..];
    assert tokens[..k] == first + rest[..k - |first|];
    ResolvesOn(value, first, rest[..k - |first|]);
    Associative(at, first, rest[..k - |first|]);
  }

  /** No node is on the way to a child. */
  lemma {:induction false} NoneBetween(value: Value, children: seq<Below>, i: nat, tokens: seq<string>, k: nat)
    requires Leads(value, children) && Apart(children) && i < |children| && children[i].tokens <= tokens
    requires 0 < k < |children[i].tokens|
    ensures AsNode(Resolve(value, tokens[..k])) == None
  {
    hide Resolve;
    NoneThrough(children, i, tokens[..k]);
  }

  lemma {:induction false} NoneThrough(children: seq<Below>, i: nat, part: seq<string>)
    requires Apart(children) && i < |children| && part <= children[i].tokens && part != children[i].tokens
    ensures !IsThrough(children, part)
  {
    forall j | 0 <= j < |children| ensures !(children[j].tokens <= part) {
      PrefixOfPrefix(children[j].tokens, part, children[i].tokens);
    }
  }

  lemma {:induction false} PrefixOfPrefix(a: seq<string>, b: seq<string>, c: seq<string>)
    requires b <= c
    ensures a <= b ==> a <= c
  {
  }

  lemma {:induction false} NoneFound(value: Value, children: seq<Below>, tokens: seq<string>)
    requires Leads(value, children) && tokens != []
    requires forall i :: 0 <= i < |children| ==> !(children[i].tokens <= tokens)
    ensures AsNode(Resolve(value, tokens)) == None
  {
    hide Resolve;
    assert !IsThrough(children, tokens);
  }

  /** The walk's own search takes the one child the tokens start with. */
  lemma {:induction false} ReachesThrough(
      children: seq<Below>, i: nat, at: seq<string>, visits: Visits, tokens: seq<string>)
    requires Apart(children) && i < |children| && children[i].tokens <= tokens
    ensures ReachAll(children, at, visits, tokens)
         == Reach(children[i].node, at + children[i].tokens, visits, tokens[|children[i].tokens|..])
  {
    var n := |children| - 1;
    if i < n {
      var before := children[..n];
      if children[n].tokens <= tokens {
        OnePrefix(children[i].tokens, children[n].tokens, tokens);
      }
      assert Apart(before);
      ReachesThrough(before, i, at, visits, tokens);
    }
  }

  /** What the walk reaches below a node is what the document resolves to. */
  lemma {:induction false} ReachIsFound(node: Node, at: seq<string>, visits: Visits, tokens: seq<string>)
    requires UniqueKeys(node)
    ensures Reach(node, at, visits, tokens) == Found(NodeValue(node), at, visits, tokens)
    decreases |tokens|, 1
  {
    hide Leads, Apart, Children, OwnKeysDistinct, Size, GoesBelow, ReachAll;
    if tokens == [] {
      assert Found(NodeValue(node), at, visits, tokens) == Some(node);
    } else {
      ChildrenAreApart(node);
      NodeLeads(node);
      if GoesBelow(node, at, visits) {
        ReachAllIsFound(NodeValue(node), Children(node), at, visits, tokens);
      } else {
        SkippedFrom(NodeValue(node), at, visits, tokens);
      }
    }
  }

  lemma {:induction false} ReachAllIsFound(
      value: Value, children: seq<Below>, at: seq<string>, visits: Visits, tokens: seq<string>)
    requires Leads(value, children) && Apart(children) && UniqueKeysAll(children) && tokens != []
    requires !Declines(Some(value), at, visits)
    ensures ReachAll(children, at, visits, tokens) == Found(value, at, visits, tokens)
    decreases |tokens|, 0
  {
    hide Resolve, Declines, Leads;
    if i :| 0 <= i < |children| && children[i].tokens <= tokens {
      ReachesThrough(children, i, at, visits, tokens);
      FoundThrough(value, children, i, at, visits, tokens);
      AllUnique(children, i);
      assert children[i].tokens != [];
      hide UniqueKeysAll, UniqueKeys, Apart, Reach, ReachAll, Found;
      ReachIsFound(children[i].node, at + children[i].tokens, visits, tokens[|children[i].tokens|..]);
    } else {
      NotReached(children, at, visits, tokens);
      NoneFound(value, children, tokens);
    }
  }

  lemma {:induction false} AllUnique(children: seq<Below>, i: nat)
    requires UniqueKeysAll(children) && i < |children|
    ensures UniqueKeys(children[i].node)
    decreases |children|
  {
    if i < |children| - 1 {
      AllUnique(children[..|children| - 1], i);
    }
  }

  /** What the hooks are called with at one location of the document. */
  ghost function CalledAt(document: Document, visits: Visits, at: seq<string>): seq<Event> {
    if IsSkipped(DocumentValue(document), [], visits, at) then []
    else Expected(AsNode(Resolve(DocumentValue(document), at)), at)
  }

  /** The main result, by the document alone: at every location, the walk calls exactly
      the hooks of the object the pointer resolves to, once each and in order, and none
      where it resolves to no such object or comes by a Path Item that was declined. */
  lemma {:induction false} WalkIsResolved(document: Document, visits: Visits, at: seq<string>)
    requires UniqueDocumentKeys(document)
    ensures EventsAt(WalkAll(DocumentBelow(document), [], visits), at) == CalledAt(document, visits, at)
  {
    var children := DocumentBelow(document);
    hide DocumentBelow, Resolve, UniqueKeysAll, Leads, Apart, EventsAt, WalkAll, ReachAll, IsSkipped;
    if at == [] {
      RootHasNoEvents(document, visits);
      NoneAt(WalkAll(children, [], visits), []);
      RootIsNoNode(document, visits);
    } else {
      DocumentIsVisitedOnce(document, visits, at);
      DocumentIsApart(document);
      DocumentLeads(document);
      ReachAllIsFound(DocumentValue(document), children, [], visits, at);
    }
  }

  lemma {:induction false} RootIsNoNode(document: Document, visits: Visits)
    ensures CalledAt(document, visits, []) == []
  {
  }

  /** So the location of every call resolves to the object handed over. */
  lemma {:induction false} LocationsResolve(document: Document, visits: Visits, i: nat)
    requires UniqueDocumentKeys(document) && i < |WalkAll(DocumentBelow(document), [], visits)|
    ensures var event := WalkAll(DocumentBelow(document), [], visits)[i];
      var node := AsNode(Resolve(DocumentValue(document), event.at));
      node.Some? && event in EventsBefore(node.value, event.at) + EventsAfter(node.value, event.at)
  {
    var events := WalkAll(DocumentBelow(document), [], visits);
    var at := events[i].at;
    hide DocumentBelow, Resolve, WalkAll, EventsAt, EventsBefore, EventsAfter;
    WalkIsResolved(document, visits, at);
    var a := EventsAtHolds(events, i, at);
  }
}
