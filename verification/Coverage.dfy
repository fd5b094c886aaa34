/** Comparing the documented operations with the registered routes: `validateOpenApiRouteCoverage`. */
module Coverage {
  import opened Wrappers
  import opened JsonValues
  import opened RoutePaths
  import opened StripUndefined
  import opened SpecBuilder
  import opened Validation
  import opened Denotation
  import opened BuilderAcceptance

  datatype Route = Route(verb: string, path: string)

  datatype CollectError = NoPaths | ItemNotAnObject(path: string) | OperationNotAnObject(path: string, verb: string)

  function ToUpper(s: string): string {
    if s == "" then ""
    else [if 'a' <= s[0] <= 'z' then s[0] - 'a' + 'A' else s[0]] + ToUpper(s[1..])
  }

  // Collecting operations.

  function Prepend(routes: seq<Route>, more: Result<seq<Route>, CollectError>): Result<seq<Route>, CollectError> {
    match more
    case Ok(rest) => Ok(routes + rest)
    case Err(error) => Err(error)
  }

  function CollectItem<V>(view: V -> Shape<V>, path: string, entries: seq<(string, V)>)
    : Result<seq<Route>, CollectError>
  {
    if entries == [] then Ok([])
    else
      var verb := entries[0].0;
      if verb !in HTTP_METHODS then CollectItem(view, path, entries[1..])
      else if !view(entries[0].1).Object? then Err(OperationNotAnObject(path, verb))
      else Prepend([Route(ToUpper(verb), path)], CollectItem(view, path, entries[1..]))
  }

  function CollectPaths<V>(view: V -> Shape<V>, entries: seq<(string, V)>): Result<seq<Route>, CollectError> {
    if entries == [] then Ok([])
    else
      var item := view(entries[0].1);
      if !item.Object? then Err(ItemNotAnObject(entries[0].0))
      else
        match CollectItem(view, entries[0].0, item.entries)
        case Err(error) => Err(error)
        case Ok(routes) => Prepend(routes, CollectPaths(view, entries[1..]))
  }

  function Collect<V>(view: V -> Shape<V>, document: Shape<V>): Result<seq<Route>, CollectError> {
    var paths := Prop(view, document, "paths");
    if paths.Object? then CollectPaths(view, paths.entries) else Err(NoPaths)
  }

  lemma PrependTwice(a: seq<Route>, b: seq<Route>, more: Result<seq<Route>, CollectError>)
    ensures Prepend(a, Prepend(b, more)) == Prepend(a + b, more)
    ensures Prepend([], more) == more && Prepend(a, Ok([])) == Ok(a)
  {
    assert more.Ok? ==> a + (b + more.value) == a + b + more.value && [] + more.value == more.value;
    assert a + [] == a;
  }

  /** The inner loop: adds the operations of one path item. */
  method CollectItemOperations(g: Graph, path: string, entries: seq<(string, nat)>, before: seq<Route>)
    returns (r: Result<seq<Route>, CollectError>)
    ensures r == Prepend(before, CollectItem(At(g), path, entries))
  {
    var operations := before;
    for i := 0 to |entries|
      invariant Prepend(before, CollectItem(At(g), path, entries))
             == Prepend(operations, CollectItem(At(g), path, entries[i..]))
    {
      var (verb, operation) := entries[i];
      assert entries[i..][1..] == entries[i + 1..];
      if verb in HTTP_METHODS {
        if !At(g)(operation).Object? {
          return Err(OperationNotAnObject(path, verb));
        }
        PrependTwice(operations, [Route(ToUpper(verb), path)], CollectItem(At(g), path, entries[i + 1..]));
        operations := operations + [Route(ToUpper(verb), path)];
      }
    }
    PrependTwice(operations, [], Ok([]));
    r := Ok(operations);
  }

  method CollectOperations(g: Graph, document: nat) returns (r: Result<seq<Route>, CollectError>)
    ensures r == Collect(At(g), At(g)(document))
  {
    var paths := Prop(At(g), At(g)(document), "paths");
    if !paths.Object? {
      return Err(NoPaths);
    }
    var operations: seq<Route> := [];
    PrependTwice([], [], CollectPaths(At(g), paths.entries));
    assert paths.entries[0..] == paths.entries;
    for i := 0 to |paths.entries|
      invariant Collect(At(g), At(g)(document)) == Prepend(operations, CollectPaths(At(g), paths.entries[i..]))
    {
      var (path, value) := paths.entries[i];
      assert paths.entries[i..][1..] == paths.entries[i + 1..];
      var item := At(g)(value);
      if !item.Object? {
        return Err(ItemNotAnObject(path));
      }
      r := CollectItemOperations(g, path, item.entries, operations);
      if r.Err? {
        return;
      }
      PrependTwice(
        operations, CollectItem(At(g), path, item.entries).value, CollectPaths(At(g), paths.entries[i + 1..]));
      operations := r.value;
    }
    PrependTwice(operations, [], Ok([]));
    r := Ok(operations);
  }

  // What is collected.

  ghost predicate NoRepeats(routes: seq<Route>) {
    forall i, j :: 0 <= i < j < |routes| ==> routes[i] != routes[j]
  }

  predicate Lower(s: string) {
    forall i :: 0 <= i < |s| ==> 'a' <= s[i] <= 'z'
  }

  lemma MethodsAreLower(verb: string)
    requires verb in HTTP_METHODS
    ensures Lower(verb)
  {
  }

  lemma {:induction false} ToUpperInjective(a: string, b: string)
    requires Lower(a) && Lower(b)
    ensures ToUpper(a) == ToUpper(b) <==> a == b
    ensures |ToUpper(a)| == |a| && ' ' !in ToUpper(a)
  {
    if a != "" {
      ToUpperInjective(a[1..], if b == "" then "" else b[1..]);
      if b != "" {
        assert a == [a[0]] + a[1..] && b == [b[0]] + b[1..];
        assert ToUpper(a)[1..] == ToUpper(a[1..]) && ToUpper(b)[1..] == ToUpper(b[1..]);
      }
    }
  }

  lemma MethodsUpperDistinct(a: string, b: string)
    requires a in HTTP_METHODS && b in HTTP_METHODS
    ensures ToUpper(a) == ToUpper(b) <==> a == b
  {
    MethodsAreLower(a);
    MethodsAreLower(b);
    ToUpperInjective(a, b);
  }

  /** Capitals are 32 below the small letters. */
  lemma {:induction false} ToUpperOf(small: string, capital: string)
    requires |small| == |capital|
    requires forall i :: 0 <= i < |small| ==> 'a' <= small[i] <= 'z' && capital[i] as int == small[i] as int - 32
    ensures ToUpper(small) == capital
  {
    if small != "" {
      ToUpperOf(small[1..], capital[1..]);
      assert capital == [capital[0]] + capital[1..];
    }
  }

  /** The five methods, as keys of a path item and in capitals. */
  lemma MethodNames()
    ensures Get.Key() == "get" && ToUpper("get") == "GET"
    ensures Post.Key() == "post" && ToUpper("post") == "POST"
    ensures Put.Key() == "put" && ToUpper("put") == "PUT"
    ensures Delete.Key() == "delete" && ToUpper("delete") == "DELETE"
    ensures Patch.Key() == "patch" && ToUpper("patch") == "PATCH"
  {
    ToUpperOf("get", "GET");
    ToUpperOf("post", "POST");
    ToUpperOf("put", "PUT");
    ToUpperOf("delete", "DELETE");
    ToUpperOf("patch", "PATCH");
  }

  /** The item has an operation whose method, in capitals, is this. */
  ghost predicate ItemHolds<V>(entries: seq<(string, V)>, upper: string) {
    exists verb :: verb in HTTP_METHODS && Has(entries, verb) && ToUpper(verb) == upper
  }

  lemma ItemHoldsCons<V>(entries: seq<(string, V)>, upper: string)
    requires entries != []
    ensures ItemHolds(entries, upper) <==>
              (entries[0].0 in HTTP_METHODS && ToUpper(entries[0].0) == upper) || ItemHolds(entries[1..], upper)
  {
  }

  lemma NewMethodNotHeld<V>(entries: seq<(string, V)>)
    requires entries != [] && DistinctKeys(entries) && entries[0].0 in HTTP_METHODS
    ensures !ItemHolds(entries[1..], ToUpper(entries[0].0))
  {
    FindNone(entries[1..], entries[0].0);
    forall verb | verb in HTTP_METHODS && ToUpper(verb) == ToUpper(entries[0].0)
      ensures verb == entries[0].0
    {
      MethodsUpperDistinct(verb, entries[0].0);
    }
  }

  ghost predicate OperationsAreObjects<V>(view: V -> Shape<V>, entries: seq<(string, V)>) {
    forall i :: 0 <= i < |entries| && entries[i].0 in HTTP_METHODS ==> view(entries[i].1).Object?
  }

  /** Collecting from an item gives each of its methods once. */
  lemma {:induction false} ItemRoutes<V>(view: V -> Shape<V>, path: string, entries: seq<(string, V)>)
    requires DistinctKeys(entries) && OperationsAreObjects(view, entries)
    ensures CollectItem(view, path, entries).Ok?
    ensures forall route :: route in CollectItem(view, path, entries).value <==>
              route.path == path && ItemHolds(entries, route.verb)
    ensures NoRepeats(CollectItem(view, path, entries).value)
  {
    if entries != [] {
      ItemRoutes(view, path, entries[1..]);
      forall route: Route
        ensures ItemHolds(entries, route.verb) <==>
                  (entries[0].0 in HTTP_METHODS && ToUpper(entries[0].0) == route.verb)
                  || ItemHolds(entries[1..], route.verb)
      {
        ItemHoldsCons(entries, route.verb);
      }
      if entries[0].0 in HTTP_METHODS {
        NewMethodNotHeld(entries);
      }
    }
  }

  /** The paths have an operation with this path and, in capitals, this method. */
  ghost predicate PathsHold<V>(view: V -> Shape<V>, entries: seq<(string, V)>, route: Route) {
    match Find(entries, route.path)
    case None => false
    case Some(value) => view(value).Object? && ItemHolds(view(value).entries, route.verb)
  }

  ghost predicate CollectableItem<V>(view: V -> Shape<V>, item: Shape<V>) {
    item.Object? && DistinctKeys(item.entries) && OperationsAreObjects(view, item.entries)
  }

  /** Collecting from the paths gives each operation once, and nothing else. */
  lemma {:induction false} PathRoutes<V>(view: V -> Shape<V>, entries: seq<(string, V)>)
    requires DistinctKeys(entries)
    requires forall i :: 0 <= i < |entries| ==> CollectableItem(view, view(entries[i].1))
    ensures CollectPaths(view, entries).Ok?
    ensures forall route :: route in CollectPaths(view, entries).value <==> PathsHold(view, entries, route)
    ensures NoRepeats(CollectPaths(view, entries).value)
  {
    if entries != [] {
      var (path, value) := entries[0];
      var rest := entries[1..];
      assert CollectableItem(view, view(value));
      ItemRoutes(view, path, view(value).entries);
      PathRoutes(view, rest);
      FindNone(rest, path);
      assert entries == [(path, value)] + rest;
      forall route
        ensures PathsHold(view, entries, route) <==>
                  if route.path == path then ItemHolds(view(value).entries, route.verb)
                  else PathsHold(view, rest, route)
        ensures PathsHold(view, rest, route) ==> route.path != path
      {
        FindCons((path, value), rest, route.path);
      }
    }
  }

  // When collecting fails.

  /** The operation at place `j` is the first that is not an object. */
  ghost predicate FirstBadOperation<V>(
    view: V -> Shape<V>, path: string, entries: seq<(string, V)>, j: nat, error: CollectError)
  {
    && j < |entries| && OperationsAreObjects(view, entries[..j])
    && entries[j].0 in HTTP_METHODS && !view(entries[j].1).Object?
    && error == OperationNotAnObject(path, entries[j].0)
  }

  ghost predicate ReadableItem<V>(view: V -> Shape<V>, item: Shape<V>) {
    item.Object? && OperationsAreObjects(view, item.entries)
  }

  /** The entry at place `i` is the first that cannot be collected. */
  ghost predicate FirstBadEntry<V>(view: V -> Shape<V>, entries: seq<(string, V)>, i: nat, error: CollectError) {
    && i < |entries| && (forall k :: 0 <= k < i ==> ReadableItem(view, view(entries[k].1)))
    && var item := view(entries[i].1);
       if !item.Object? then error == ItemNotAnObject(entries[i].0)
       else exists j: nat :: FirstBadOperation(view, entries[i].0, item.entries, j, error)
  }

  lemma BadOperationCons<V>(view: V -> Shape<V>, path: string, entries: seq<(string, V)>, error: CollectError)
    requires entries != []
    ensures (exists j: nat :: FirstBadOperation(view, path, entries, j, error)) <==>
              if entries[0].0 in HTTP_METHODS && !view(entries[0].1).Object?
              then error == OperationNotAnObject(path, entries[0].0)
              else exists j: nat :: FirstBadOperation(view, path, entries[1..], j, error)
  {
    var rest := entries[1..];
    var bad := entries[0].0 in HTTP_METHODS && !view(entries[0].1).Object?;
    forall j: nat | j < |rest|
      ensures OperationsAreObjects(view, entries[..j + 1]) <==> !bad && OperationsAreObjects(view, rest[..j])
    {
      assert entries[..j + 1] == [entries[0]] + rest[..j];
      assert forall k :: 0 <= k < j ==> entries[..j + 1][k + 1] == rest[..j][k];
    }
    if j: nat :| FirstBadOperation(view, path, entries, j, error) {
      if j > 0 {
        assert FirstBadOperation(view, path, rest, j - 1, error);
      }
    }
    if !bad {
      if j: nat :| FirstBadOperation(view, path, rest, j, error) {
        assert FirstBadOperation(view, path, entries, j + 1, error);
      }
    } else if error == OperationNotAnObject(path, entries[0].0) {
      assert FirstBadOperation(view, path, entries, 0, error);
    }
  }

  lemma {:induction false} CollectItemFails<V>(
    view: V -> Shape<V>, path: string, entries: seq<(string, V)>, error: CollectError)
    ensures CollectItem(view, path, entries).Ok? <==> OperationsAreObjects(view, entries)
    ensures CollectItem(view, path, entries) == Err(error) <==>
              exists j: nat :: FirstBadOperation(view, path, entries, j, error)
  {
    if entries != [] {
      var rest := entries[1..];
      CollectItemFails(view, path, rest, error);
      BadOperationCons(view, path, entries, error);
      assert forall k :: 0 < k < |entries| ==> entries[k] == rest[k - 1];
    }
  }

  lemma BadEntryCons<V>(view: V -> Shape<V>, entries: seq<(string, V)>, error: CollectError)
    requires entries != []
    ensures (exists i: nat :: FirstBadEntry(view, entries, i, error)) <==>
              FirstBadEntry(view, entries, 0, error)
              || (ReadableItem(view, view(entries[0].1))
                  && exists i: nat :: FirstBadEntry(view, entries[1..], i, error))
  {
    var rest := entries[1..];
    assert forall k: nat :: k < |rest| ==> rest[k] == entries[k + 1];
    if i: nat :| FirstBadEntry(view, entries, i, error) {
      if i > 0 {
        assert FirstBadEntry(view, rest, i - 1, error);
      }
    }
    if ReadableItem(view, view(entries[0].1)) {
      if i: nat :| FirstBadEntry(view, rest, i, error) {
        assert FirstBadEntry(view, entries, i + 1, error);
      }
    }
  }

  lemma {:induction false} CollectPathsFails<V>(
    view: V -> Shape<V>, entries: seq<(string, V)>, error: CollectError)
    ensures CollectPaths(view, entries) == Err(error) <==>
              exists i: nat :: FirstBadEntry(view, entries, i, error)
  {
    if entries != [] {
      var path, item := entries[0].0, view(entries[0].1);
      CollectPathsFails(view, entries[1..], error);
      BadEntryCons(view, entries, error);
      if item.Object? {
        CollectItemFails(view, path, item.entries, error);
      }
    }
  }

  /** Collecting fails without paths, or as the first entry and operation that is not an object says. */
  lemma CollectFailsIff<V>(view: V -> Shape<V>, document: Shape<V>, error: CollectError)
    ensures Collect(view, document) == Err(error) <==>
              var paths := Prop(view, document, "paths");
              if !paths.Object? then error == NoPaths
              else exists i: nat :: FirstBadEntry(view, paths.entries, i, error)
  {
    var paths := Prop(view, document, "paths");
    if paths.Object? {
      CollectPathsFails(view, paths.entries, error);
    }
  }

  // Graphs and trees.

  lemma {:induction false} CollectItemAlike(g: Graph, path: string, a: seq<(string, nat)>, b: seq<(string, Tree)>)
    requires |a| == |b| && forall i :: 0 <= i < |b| ==> a[i].0 == b[i].0 && Denotes(g, a[i].1, b[i].1)
    ensures CollectItem(At(g), path, a) == CollectItem(ShapeOf, path, b)
  {
    if b != [] {
      DenotesObject(g, a[0].1, b[0].1);
      CollectItemAlike(g, path, a[1..], b[1..]);
    }
  }

  lemma {:induction false} CollectPathsAlike(g: Graph, a: seq<(string, nat)>, b: seq<(string, Tree)>)
    requires |a| == |b| && forall i :: 0 <= i < |b| ==> a[i].0 == b[i].0 && Denotes(g, a[i].1, b[i].1)
    ensures CollectPaths(At(g), a) == CollectPaths(ShapeOf, b)
  {
    if b != [] {
      DenotesObject(g, a[0].1, b[0].1);
      CollectPathsAlike(g, a[1..], b[1..]);
      if b[0].1.shape.Object? {
        CollectItemAlike(g, a[0].0, g[a[0].1].entries, b[0].1.shape.entries);
      }
    }
  }

  /** What is collected from a graph is what is collected from the tree it denotes. */
  lemma CollectAlike(g: Graph, document: nat, t: Tree)
    requires Denotes(g, document, t)
    ensures Collect(At(g), At(g)(document)) == Collect(ShapeOf, t.shape)
  {
    PropAlike(g, g[document], t.shape, "paths");
    var a, b := Prop(At(g), g[document], "paths"), Prop(ShapeOf, t.shape, "paths");
    if b.Object? {
      CollectPathsAlike(g, a.entries, b.entries);
    }
  }

  // The built document.

  lemma {:induction false} StripKeepsEntries(entries: seq<(string, Tree)>)
    requires forall i :: 0 <= i < |entries| ==> entries[i].1.shape.Object?
    ensures |StripEntries(entries)| == |entries|
    ensures forall i :: 0 <= i < |entries| ==> StripEntries(entries)[i] == (entries[i].0, Strip(entries[i].1))
  {
    if entries != [] {
      StripKeepsEntries(entries[1..]);
    }
  }

  /** The route an operation is documented as. */
  function RouteOf(op: OperationDefinition): Route {
    Route(ToUpper(op.verb.Key()), Normalize(op.path))
  }

  lemma BuiltPathsCollectable(ops: seq<OperationDefinition>)
    ensures var entries := StripEntries(PathEntries(PathsOf(ops)));
            && DistinctKeys(entries)
            && forall i :: 0 <= i < |entries| ==> CollectableItem(ShapeOf, entries[i].1.shape)
  {
    var paths := PathsOf(ops);
    PathsAreProper(ops);
    StripKeepsEntries(PathEntries(paths));
    forall i | 0 <= i < |paths|
      ensures CollectableItem(ShapeOf, Strip(Tree(Object(paths[i].1))).shape)
    {
      forall j | 0 <= j < |paths[i].1|
        ensures paths[i].1[j].1.shape.Object?
      {
        var k := TableEntry(ops, i, j);
      }
      StripKeepsEntries(paths[i].1);
    }
  }

  lemma BuiltPaths(about: About, ops: seq<OperationDefinition>, components: seq<(string, Tree)>)
    ensures Prop(ShapeOf, BuildDocument(about, ops, components).shape, "paths")
         == Object(StripEntries(PathEntries(PathsOf(ops))))
  {
    RawProps(about, ops, components);
    StripProp(RawDocument(about, ops, components), "paths");
  }

  lemma BuiltPathHolds(
    about: About, ops: seq<OperationDefinition>, components: seq<(string, Tree)>, path: string, verb: string)
    requires verb in HTTP_METHODS
    ensures var paths := StripEntries(PathEntries(PathsOf(ops)));
            var item := Prop(ShapeOf, Object(paths), path);
            item.Object? && Has(item.entries, verb) <==> LastKeyed(ops, path, verb).Some?
  {
    BuiltPaths(about, ops, components);
    BuiltOperationAt(about, ops, components, path, verb);
  }

  lemma KeysDistinct(a: HttpMethod, b: HttpMethod)
    ensures a.Key() in HTTP_METHODS && b.Key() in HTTP_METHODS
    ensures a.Key() == b.Key() <==> a == b
  {
  }

  lemma BuiltPathsHold(about: About, ops: seq<OperationDefinition>, components: seq<(string, Tree)>, route: Route)
    ensures PathsHold(ShapeOf, StripEntries(PathEntries(PathsOf(ops))), route)
       <==> exists op :: op in ops && RouteOf(op) == route
  {
    var entries := StripEntries(PathEntries(PathsOf(ops)));
    if PathsHold(ShapeOf, entries, route) {
      var methods := Prop(ShapeOf, Object(entries), route.path).entries;
      var verb :| verb in HTTP_METHODS && Has(methods, verb) && ToUpper(verb) == route.verb;
      BuiltPathHolds(about, ops, components, route.path, verb);
      var k := LastKeyedSurvives(ops, route.path, verb);
      assert ops[k] in ops && RouteOf(ops[k]) == route;
    }
    if op :| op in ops && RouteOf(op) == route {
      var k: nat :| k < |ops| && ops[k] == op;
      KeysDistinct(op.verb, op.verb);
      LastKeyedExists(ops, route.path, op.verb.Key(), k);
      BuiltPathHolds(about, ops, components, route.path, op.verb.Key());
    }
  }

  /**
   * Regrouping loses no operation and makes none up: collecting from the built
   * document gives the route of each operation, once.
   */
  lemma BuiltRoutes(about: About, ops: seq<OperationDefinition>, components: seq<(string, Tree)>)
    ensures var routes := Collect(ShapeOf, BuildDocument(about, ops, components).shape);
            && routes.Ok?
            && NoRepeats(routes.value)
            && forall route :: route in routes.value <==> exists op :: op in ops && RouteOf(op) == route
  {
    BuiltPaths(about, ops, components);
    BuiltPathsCollectable(ops);
    PathRoutes(ShapeOf, StripEntries(PathEntries(PathsOf(ops))));
    forall route
      ensures PathsHold(ShapeOf, StripEntries(PathEntries(PathsOf(ops))), route) <==>
                exists op :: op in ops && RouteOf(op) == route
    {
      BuiltPathsHold(about, ops, components, route);
    }
  }

  // How many operations there are.

  function RoutesOf(ops: seq<OperationDefinition>): (routes: seq<Route>)
    ensures |routes| == |ops| && forall i :: 0 <= i < |ops| ==> routes[i] == RouteOf(ops[i])
  {
    if ops == [] then [] else [RouteOf(ops[0])] + RoutesOf(ops[1..])
  }

  ghost function Members(routes: seq<Route>): set<Route> {
    set route | route in routes
  }

  lemma NoRepeatsCons(first: Route, rest: seq<Route>)
    ensures NoRepeats([first] + rest) <==> NoRepeats(rest) && first !in rest
  {
    var routes := [first] + rest;
    if NoRepeats(routes) {
      forall i, j | 0 <= i < j < |rest|
        ensures rest[i] != rest[j] && rest[j] != first && rest[i] != first
      {
        assert routes[i + 1] == rest[i] && routes[j + 1] == rest[j] && routes[0] == first;
      }
      assert rest != [] ==> routes[1] == rest[0] && routes[0] != routes[1];
    }
    if NoRepeats(rest) && first !in rest {
      forall i, j | 0 <= i < j < |routes|
        ensures routes[i] != routes[j]
      {
        assert routes[j] == rest[j - 1] && (i > 0 ==> routes[i] == rest[i - 1]);
      }
    }
  }

  /** A list has as many members as places exactly when nothing is repeated. */
  lemma {:induction false} MembersSize(routes: seq<Route>)
    ensures |Members(routes)| <= |routes|
    ensures |Members(routes)| == |routes| <==> NoRepeats(routes)
  {
    if routes != [] {
      var first, rest := routes[0], routes[1..];
      MembersSize(rest);
      NoRepeatsCons(first, rest);
      assert routes == [first] + rest;
      assert Members(routes) == {first} + Members(rest);
      assert first in rest <==> first in Members(rest);
    }
  }

  lemma SameMembers(a: seq<Route>, b: seq<Route>)
    requires forall route :: route in a <==> route in b
    ensures Members(a) == Members(b)
  {
  }

  lemma RoutesOfHolds(ops: seq<OperationDefinition>, route: Route)
    ensures route in RoutesOf(ops) <==> exists op :: op in ops && RouteOf(op) == route
  {
  }

  /** The document holds as many operations as were defined exactly when no two share a method and a path. */
  lemma BuiltCountIff(about: About, ops: seq<OperationDefinition>, components: seq<(string, Tree)>)
    ensures var routes := Collect(ShapeOf, BuildDocument(about, ops, components).shape);
            routes.Ok? && (|routes.value| == |ops| <==> NoRepeats(RoutesOf(ops)))
  {
    BuiltRoutes(about, ops, components);
    var routes := Collect(ShapeOf, BuildDocument(about, ops, components).shape).value;
    MembersSize(routes);
    MembersSize(RoutesOf(ops));
    forall route
      ensures route in routes <==> route in RoutesOf(ops)
    {
      RoutesOfHolds(ops, route);
    }
    SameMembers(routes, RoutesOf(ops));
  }

  // The comparison.

  /** How a route is written for comparison. */
  function Line(route: Route): string {
    route.verb + " " + route.path
  }

  function Lines(routes: seq<Route>): (lines: seq<string>)
    ensures |lines| == |routes| && forall i :: 0 <= i < |routes| ==> lines[i] == Line(routes[i])
  {
    if routes == [] then [] else [Line(routes[0])] + Lines(routes[1..])
  }

  /** The lines that are not among the others. */
  function MissingFrom(lines: seq<string>, others: seq<string>): seq<string> {
    if lines == [] then []
    else if lines[0] in others then MissingFrom(lines[1..], others)
    else [lines[0]] + MissingFrom(lines[1..], others)
  }

  datatype Mismatch = Mismatch(missingFromSpec: seq<string>, missingFromRoutes: seq<string>)

  /** The two lists of lines compared, without regard to order. */
  function Compare(documented: seq<Route>, discovered: seq<Route>): Option<Mismatch> {
    var missingFromSpec := MissingFrom(Lines(discovered), Lines(documented));
    var missingFromRoutes := MissingFrom(Lines(documented), Lines(discovered));
    if missingFromSpec != [] || missingFromRoutes != [] then Some(Mismatch(missingFromSpec, missingFromRoutes))
    else None
  }

  lemma {:induction false} MissingFromMeans(lines: seq<string>, others: seq<string>)
    ensures forall line :: line in MissingFrom(lines, others) <==> line in lines && line !in others
  {
    if lines != [] {
      MissingFromMeans(lines[1..], others);
      assert lines == [lines[0]] + lines[1..];
    }
  }

  lemma {:induction false} LineInjective(a: Route, b: Route)
    requires ' ' !in a.verb && ' ' !in b.verb
    ensures Line(a) == Line(b) <==> a == b
    decreases |a.verb|
  {
    var x, y := Line(a), Line(b);
    if x == y {
      assert x[|a.verb|] == ' ' && y[|b.verb|] == ' ';
      assert forall i :: 0 <= i < |a.verb| ==> x[i] == a.verb[i];
      assert forall i :: 0 <= i < |b.verb| ==> y[i] == b.verb[i];
      assert |a.verb| == |b.verb|;
      assert a.verb == x[..|a.verb|] && b.verb == y[..|b.verb|];
      assert a.path == x[|a.verb| + 1..] && b.path == y[|b.verb| + 1..];
    }
  }

  ghost predicate PlainVerbs(routes: seq<Route>) {
    forall route :: route in routes ==> ' ' !in route.verb
  }

  lemma LineListed(route: Route, routes: seq<Route>)
    requires PlainVerbs(routes) && ' ' !in route.verb
    ensures Line(route) in Lines(routes) <==> route in routes
  {
    if Line(route) in Lines(routes) {
      var i :| 0 <= i < |routes| && Lines(routes)[i] == Line(route);
      LineInjective(route, routes[i]);
    }
    if route in routes {
      var i :| 0 <= i < |routes| && routes[i] == route;
      assert Lines(routes)[i] == Line(route);
    }
  }

  /** The route is in the one list and not in the other. */
  ghost predicate OnlyIn(routes: seq<Route>, others: seq<Route>, route: Route) {
    route in routes && route !in others
  }

  /** The lines missing from the others are those of the routes missing from the others. */
  lemma MissingRoutes(routes: seq<Route>, others: seq<Route>)
    requires PlainVerbs(routes) && PlainVerbs(others)
    ensures forall line :: line in MissingFrom(Lines(routes), Lines(others)) <==>
              exists route :: OnlyIn(routes, others, route) && Line(route) == line
  {
    MissingFromMeans(Lines(routes), Lines(others));
    forall line
      ensures line in Lines(routes) && line !in Lines(others) <==>
                exists route :: OnlyIn(routes, others, route) && Line(route) == line
    {
      if line in Lines(routes) && line !in Lines(others) {
        var i :| 0 <= i < |routes| && Lines(routes)[i] == line;
        assert routes[i] in routes;
        LineListed(routes[i], others);
        assert OnlyIn(routes, others, routes[i]);
      }
      if route :| OnlyIn(routes, others, route) && Line(route) == line {
        LineListed(route, routes);
        LineListed(route, others);
      }
    }
  }

  /** The comparison reports exactly the routes that only one list has, and nothing when both have the same. */
  lemma CompareMeans(documented: seq<Route>, discovered: seq<Route>)
    requires PlainVerbs(documented) && PlainVerbs(discovered)
    ensures match Compare(documented, discovered)
            case None => Members(documented) == Members(discovered)
            case Some(Mismatch(missingFromSpec, missingFromRoutes)) =>
              && Members(documented) != Members(discovered)
              && (forall line :: line in missingFromSpec <==>
                    exists route :: OnlyIn(discovered, documented, route) && route.verb + " " + route.path == line)
              && (forall line :: line in missingFromRoutes <==>
                    exists route :: OnlyIn(documented, discovered, route) && route.verb + " " + route.path == line)
  {
    MissingRoutes(discovered, documented);
    MissingRoutes(documented, discovered);
    var missingFromSpec := MissingFrom(Lines(discovered), Lines(documented));
    var missingFromRoutes := MissingFrom(Lines(documented), Lines(discovered));
    assert forall route :: route in documented <==> route in Members(documented);
    assert forall route :: route in discovered <==> route in Members(discovered);
    if missingFromSpec == [] && missingFromRoutes == [] {
      forall route
        ensures route in documented <==> route in discovered
      {
        assert Line(route) !in missingFromRoutes && Line(route) !in missingFromSpec;
        assert !OnlyIn(documented, discovered, route) && !OnlyIn(discovered, documented, route);
      }
      assert Members(documented) == Members(discovered);
    } else if missingFromSpec != [] {
      assert missingFromSpec[0] in missingFromSpec;
    } else {
      assert missingFromRoutes[0] in missingFromRoutes;
    }
  }

  // Coverage, end to end.

  /** The routes the modules register, as they are discovered. */
  function Discovered(registered: seq<(HttpMethod, string)>): (routes: seq<Route>)
    ensures |routes| == |registered|
    ensures forall i :: 0 <= i < |registered| ==>
              routes[i] == Route(ToUpper(registered[i].0.Key()), Normalize(registered[i].1))
  {
    if registered == [] then []
    else [Route(ToUpper(registered[0].0.Key()), Normalize(registered[0].1))] + Discovered(registered[1..])
  }

  lemma {:induction false} ItemVerbsPlain<V>(view: V -> Shape<V>, path: string, entries: seq<(string, V)>)
    requires CollectItem(view, path, entries).Ok?
    ensures PlainVerbs(CollectItem(view, path, entries).value)
  {
    if entries != [] {
      ItemVerbsPlain(view, path, entries[1..]);
      if entries[0].0 in HTTP_METHODS {
        MethodsAreLower(entries[0].0);
        ToUpperInjective(entries[0].0, entries[0].0);
      }
    }
  }

  lemma {:induction false} PathVerbsPlain<V>(view: V -> Shape<V>, entries: seq<(string, V)>)
    requires CollectPaths(view, entries).Ok?
    ensures PlainVerbs(CollectPaths(view, entries).value)
  {
    if entries != [] {
      ItemVerbsPlain(view, entries[0].0, view(entries[0].1).entries);
      PathVerbsPlain(view, entries[1..]);
    }
  }

  lemma CollectedVerbsPlain<V>(view: V -> Shape<V>, document: Shape<V>)
    requires Collect(view, document).Ok?
    ensures PlainVerbs(Collect(view, document).value)
  {
    PathVerbsPlain(view, Prop(view, document, "paths").entries);
  }

  lemma KeyUpper(a: HttpMethod, b: HttpMethod)
    ensures a.Key() in HTTP_METHODS && ' ' !in ToUpper(a.Key())
    ensures ToUpper(a.Key()) == ToUpper(b.Key()) <==> a == b
  {
    KeysDistinct(a, b);
    MethodsUpperDistinct(a.Key(), b.Key());
    MethodsAreLower(a.Key());
    ToUpperInjective(a.Key(), a.Key());
  }

  lemma DiscoveredVerbsPlain(registered: seq<(HttpMethod, string)>)
    ensures PlainVerbs(Discovered(registered))
  {
    forall verb: HttpMethod
      ensures ' ' !in ToUpper(verb.Key())
    {
      KeyUpper(verb, verb);
    }
  }

  /**
   * `validateOpenApiRouteCoverage`, given the registered routes: passes exactly
   * when the documented and the discovered routes are the same.
   */
  method ValidateCoverage(g: Graph, document: nat, registered: seq<(HttpMethod, string)>)
    returns (r: Result<Option<Mismatch>, CollectError>)
    ensures match Collect(At(g), At(g)(document))
            case Err(error) => r == Err(error)
            case Ok(routes) =>
              && r == Ok(Compare(routes, Discovered(registered)))
              && (r == Ok(None) <==> Members(routes) == Members(Discovered(registered)))
  {
    var routes := CollectOperations(g, document);
    match routes {
      case Err(error) => r := Err(error);
      case Ok(documented) =>
        CollectedVerbsPlain(At(g), At(g)(document));
        DiscoveredVerbsPlain(registered);
        CompareMeans(documented, Discovered(registered));
        r := Ok(Compare(documented, Discovered(registered)));
    }
  }

  /** An operation is defined for this method and template, with every parameter written with a colon. */
  ghost predicate Documents(ops: seq<OperationDefinition>, verb: HttpMethod, template: string) {
    exists op :: op in ops && op.verb == verb && Denormalize(op.path) == template
  }

  /** A route is registered for this method and template, with every parameter written with a colon. */
  ghost predicate Registers(registered: seq<(HttpMethod, string)>, verb: HttpMethod, template: string) {
    exists route :: route in registered && route.0 == verb && Denormalize(route.1) == template
  }

  lemma SameRouteIff(a: HttpMethod, p: string, b: HttpMethod, q: string)
    ensures Route(ToUpper(a.Key()), Normalize(p)) == Route(ToUpper(b.Key()), Normalize(q))
       <==> a == b && Denormalize(p) == Denormalize(q)
  {
    KeyUpper(a, b);
    NormalizeAlikeIff(p, q);
  }

  lemma DocumentedRoute(ops: seq<OperationDefinition>, verb: HttpMethod, template: string)
    ensures Documents(ops, verb, Denormalize(template))
       <==> exists op :: op in ops && RouteOf(op) == Route(ToUpper(verb.Key()), Normalize(template))
  {
    forall op | op in ops
      ensures RouteOf(op) == Route(ToUpper(verb.Key()), Normalize(template))
         <==> op.verb == verb && Denormalize(op.path) == Denormalize(template)
    {
      SameRouteIff(op.verb, op.path, verb, template);
    }
  }

  lemma DiscoveredRoute(registered: seq<(HttpMethod, string)>, verb: HttpMethod, template: string)
    ensures Registers(registered, verb, Denormalize(template))
       <==> Route(ToUpper(verb.Key()), Normalize(template)) in Discovered(registered)
  {
    var route, discovered := Route(ToUpper(verb.Key()), Normalize(template)), Discovered(registered);
    forall i | 0 <= i < |registered|
      ensures registered[i] in registered && discovered[i] in discovered
      ensures discovered[i] == route
         <==> registered[i].0 == verb && Denormalize(registered[i].1) == Denormalize(template)
    {
      SameRouteIff(registered[i].0, registered[i].1, verb, template);
    }
    if Registers(registered, verb, Denormalize(template)) {
      var found :| found in registered && found.0 == verb && Denormalize(found.1) == Denormalize(template);
      var i :| 0 <= i < |registered| && registered[i] == found;
      assert discovered[i] == route;
    }
  }

  /**
   * The operations and the registered routes have the same methods and templates
   * once every parameter is written with a colon.
   */
  ghost predicate SameRoutes(ops: seq<OperationDefinition>, registered: seq<(HttpMethod, string)>) {
    forall verb, template :: Documents(ops, verb, template) <==> Registers(registered, verb, template)
  }

  lemma SameRoutesIff(ops: seq<OperationDefinition>, registered: seq<(HttpMethod, string)>, documented: seq<Route>)
    requires forall route :: route in documented <==> exists op :: op in ops && RouteOf(op) == route
    ensures Members(documented) == Members(Discovered(registered)) <==> SameRoutes(ops, registered)
  {
    var discovered := Discovered(registered);
    if SameRoutes(ops, registered) {
      forall route
        ensures route in documented <==> route in discovered
      {
        if op :| op in ops && RouteOf(op) == route {
          assert Documents(ops, op.verb, Denormalize(op.path));
          DiscoveredRoute(registered, op.verb, op.path);
        }
        if route in discovered {
          var i :| 0 <= i < |registered| && discovered[i] == route;
          DiscoveredRoute(registered, registered[i].0, registered[i].1);
          DocumentedRoute(ops, registered[i].0, registered[i].1);
        }
      }
    }
    if Members(documented) == Members(discovered) {
      assert forall route :: route in documented <==> route in Members(documented);
      assert forall route :: route in discovered <==> route in Members(discovered);
      forall verb, template
        ensures Documents(ops, verb, template) <==> Registers(registered, verb, template)
      {
        if op :| op in ops && op.verb == verb && Denormalize(op.path) == template {
          DocumentedRoute(ops, verb, op.path);
          DiscoveredRoute(registered, verb, op.path);
        }
        if route :| route in registered && route.0 == verb && Denormalize(route.1) == template {
          DocumentedRoute(ops, verb, route.1);
          DiscoveredRoute(registered, verb, route.1);
        }
      }
    }
  }

  /**
   * The coverage check on the built document, however it is held in memory,
   * passes exactly when the operations and the registered routes have the same
   * methods and the same templates, not counting how their parameters are written.
   */
  lemma CoveragePassesIff(
    about: About, ops: seq<OperationDefinition>, components: seq<(string, Tree)>,
    registered: seq<(HttpMethod, string)>, g: Graph, document: nat)
    requires Denotes(g, document, BuildDocument(about, ops, components))
    ensures var routes := Collect(At(g), At(g)(document));
            routes.Ok? && (Compare(routes.value, Discovered(registered)).None? <==> SameRoutes(ops, registered))
  {
    CollectAlike(g, document, BuildDocument(about, ops, components));
    BuiltRoutes(about, ops, components);
    var documented := Collect(At(g), At(g)(document)).value;
    CollectedVerbsPlain(At(g), At(g)(document));
    DiscoveredVerbsPlain(registered);
    CompareMeans(documented, Discovered(registered));
    SameRoutesIff(ops, registered, documented);
  }

  /** No template has a parameter in braces. */
  ghost predicate ColonTemplates(ops: seq<OperationDefinition>, registered: seq<(HttpMethod, string)>) {
    && (forall op :: op in ops ==> !Braced(op.path))
    && (forall route :: route in registered ==> !Braced(route.1))
  }

  /** The operations and the registered routes have the same methods and original templates. */
  ghost predicate SameTemplates(ops: seq<OperationDefinition>, registered: seq<(HttpMethod, string)>) {
    forall verb, template ::
      (exists op :: op in ops && op.verb == verb && op.path == template) <==> (verb, template) in registered
  }

  lemma ColonTemplatesAreAsWritten(ops: seq<OperationDefinition>, registered: seq<(HttpMethod, string)>)
    requires ColonTemplates(ops, registered)
    ensures SameRoutes(ops, registered) <==> SameTemplates(ops, registered)
  {
    forall op | op in ops
      ensures Denormalize(op.path) == op.path
    {
      DenormalizeFixedIff(op.path);
    }
    forall route | route in registered
      ensures Denormalize(route.1) == route.1
    {
      DenormalizeFixedIff(route.1);
    }
    forall verb, template
      ensures Documents(ops, verb, template) <==> exists op :: op in ops && op.verb == verb && op.path == template
      ensures Registers(registered, verb, template) <==> (verb, template) in registered
    {
      if (verb, template) in registered {
        assert (verb, template).0 == verb && Denormalize((verb, template).1) == template;
      }
      if route :| route in registered && route.0 == verb && Denormalize(route.1) == template {
        assert route == (verb, template);
      }
    }
  }

  /** Without braced parameters, exactly when they have the same methods and the same original templates. */
  lemma CoverageIff(
    about: About, ops: seq<OperationDefinition>, components: seq<(string, Tree)>,
    registered: seq<(HttpMethod, string)>, g: Graph, document: nat)
    requires ColonTemplates(ops, registered)
    requires Denotes(g, document, BuildDocument(about, ops, components))
    ensures var routes := Collect(At(g), At(g)(document));
            routes.Ok? && (Compare(routes.value, Discovered(registered)).None? <==> SameTemplates(ops, registered))
  {
    CoveragePassesIff(about, ops, components, registered, g, document);
    ColonTemplatesAreAsWritten(ops, registered);
  }

  lemma MeetingTemplates(op: OperationDefinition, template: string)
    requires Normalize(op.path) == Normalize(template) && op.path != template
    ensures SameRoutes([op], [(op.verb, template)]) && !SameTemplates([op], [(op.verb, template)])
  {
    var registered := [(op.verb, template)];
    NormalizeAlikeIff(op.path, template);
    assert op in [op] && registered[0] in registered;
    assert (op.verb, op.path) !in registered;
  }

  /** With braced parameters it can pass though they differ: `/:a` is documented and `/{a}` registered. */
  lemma CoverageMissesBraces(
    about: About, op: OperationDefinition, components: seq<(string, Tree)>, g: Graph, document: nat)
    requires op.path == "/:a"
    requires Denotes(g, document, BuildDocument(about, [op], components))
    ensures var routes := Collect(At(g), At(g)(document));
            routes.Ok? && Compare(routes.value, Discovered([(op.verb, "/{a}")])).None?
    ensures !SameTemplates([op], [(op.verb, "/{a}")])
  {
    BracesCollide();
    MeetingTemplates(op, "/{a}");
    CoveragePassesIff(about, [op], components, [(op.verb, "/{a}")], g, document);
  }
}
