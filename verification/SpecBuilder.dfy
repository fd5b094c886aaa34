/** Assembling the OpenAPI document: `buildDocumentPaths` and `buildOpenApiDocument`. */
module SpecBuilder {
  import opened Wrappers
  import opened JsonValues
  import opened RoutePaths
  import opened StripUndefined

  datatype HttpMethod = Get | Post | Put | Delete | Patch {
    /** The method as a key of a path item. */
    function Key(): string {
      match this
      case Get => "get"
      case Post => "post"
      case Put => "put"
      case Delete => "delete"
      case Patch => "patch"
    }
  }

  /** An operation as it is defined; None is a property left out or undefined. */
  datatype OperationDefinition = OperationDefinition(
    verb: HttpMethod,
    path: string,
    operationId: string,
    summary: string,
    description: string,
    tags: seq<string>,
    security: Option<seq<Tree>>,
    permissions: seq<(string, Tree)>,
    parameters: Option<seq<Tree>>,
    requestBody: Option<seq<(string, Tree)>>,
    responses: seq<(string, Tree)>
  )

  function Text(s: string): Tree {
    Tree(String(s))
  }

  function Texts(ss: seq<string>): (items: seq<Tree>)
    ensures |items| == |ss| && forall i :: 0 <= i < |ss| ==> items[i] == Text(ss[i])
  {
    if ss == [] then [] else [Text(ss[0])] + Texts(ss[1..])
  }

  /** The operation as an entry of a path item. */
  function OperationEntries(op: OperationDefinition): seq<(string, Tree)> {
    [("operationId", Text(op.operationId)), ("summary", Text(op.summary)), ("description", Text(op.description)),
     ("tags", Tree(Array(Texts(op.tags))))]
    + (if op.security.Some? then [("security", Tree(Array(op.security.value)))] else [])
    + [("x-rentify-permissions", Tree(Object(op.permissions)))]
    + (if op.parameters.Some? then [("parameters", Tree(Array(op.parameters.value)))] else [])
    + (if op.requestBody.Some? then [("requestBody", Tree(Object(op.requestBody.value)))] else [])
    + [("responses", Tree(Object(op.responses)))]
  }

  function OperationObject(op: OperationDefinition): Tree {
    Tree(Object(OperationEntries(op)))
  }

  // Dictionaries that keep the order in which keys were first added.

  /** Setting a property. */
  function Set<V>(entries: seq<(string, V)>, key: string, value: V): seq<(string, V)> {
    if entries == [] then [(key, value)]
    else if entries[0].0 == key then [(key, value)] + entries[1..]
    else [entries[0]] + Set(entries[1..], key, value)
  }

  lemma {:induction false} FindSet<V>(entries: seq<(string, V)>, key: string, value: V, other: string)
    ensures Find(Set(entries, key, value), other) == if other == key then Some(value) else Find(entries, other)
  {
    if entries == [] {
      FindCons((key, value), entries, other);
    } else {
      assert entries == [entries[0]] + entries[1..];
      FindCons(entries[0], entries[1..], other);
      if entries[0].0 == key {
        FindCons((key, value), entries[1..], other);
      } else {
        FindSet(entries[1..], key, value, other);
        FindCons(entries[0], Set(entries[1..], key, value), other);
      }
    }
  }

  lemma {:induction false} SetAgain<V>(entries: seq<(string, V)>, key: string, first: V, value: V)
    ensures Set(Set(entries, key, first), key, value) == Set(entries, key, value)
  {
    if entries == [] {
      assert Set(entries, key, first) == [(key, first)];
    } else if entries[0].0 == key {
      assert Set(entries, key, first)[1..] == entries[1..];
    } else {
      SetAgain(entries[1..], key, first, value);
      assert Set(entries, key, first)[1..] == Set(entries[1..], key, first);
    }
  }

  lemma {:induction false} SetKeepsKeysDistinct<V>(entries: seq<(string, V)>, key: string, value: V)
    requires DistinctKeys(entries)
    ensures DistinctKeys(Set(entries, key, value))
    ensures forall i :: 0 <= i < |Set(entries, key, value)| ==>
              Set(entries, key, value)[i] == (key, value) || Set(entries, key, value)[i] in entries
  {
    if entries != [] && entries[0].0 != key {
      SetKeepsKeysDistinct(entries[1..], key, value);
      var rest := Set(entries[1..], key, value);
      forall j | 0 <= j < |rest|
        ensures rest[j].0 != entries[0].0
      {
        if rest[j] != (key, value) {
          var k :| 0 <= k < |entries[1..]| && entries[1..][k] == rest[j];
          assert entries[k + 1] == rest[j];
        }
      }
    }
  }

  // Paths.

  /** Operations grouped by path, then by method. */
  type PathTable = seq<(string, seq<(string, Tree)>)>

  function AddOperation(paths: PathTable, op: OperationDefinition): PathTable {
    var path := Normalize(op.path);
    var item := match Find(paths, path) case None => [] case Some(methods) => methods;
    Set(paths, path, Set(item, op.verb.Key(), OperationObject(op)))
  }

  function PathsOf(ops: seq<OperationDefinition>): PathTable {
    if ops == [] then [] else AddOperation(PathsOf(ops[..|ops| - 1]), ops[|ops| - 1])
  }

  /** What a table holds for a path and a method. */
  function Lookup(paths: PathTable, path: string, key: string): Option<Tree> {
    match Find(paths, path)
    case None => None
    case Some(methods) => Find(methods, key)
  }

  /** The operation belongs under this path and this key. */
  predicate Keyed(op: OperationDefinition, path: string, key: string) {
    Normalize(op.path) == path && op.verb.Key() == key
  }

  /** The last operation with a path and a method. */
  function LastKeyed(ops: seq<OperationDefinition>, path: string, key: string): Option<OperationDefinition> {
    if ops == [] then None
    else
      var last := |ops| - 1;
      if Keyed(ops[last], path, key) then Some(ops[last]) else LastKeyed(ops[..last], path, key)
  }

  /** No later operation replaces this one. */
  ghost predicate Survives(ops: seq<OperationDefinition>, i: nat) {
    i < |ops| && forall j :: i < j < |ops| ==> !Keyed(ops[j], Normalize(ops[i].path), ops[i].verb.Key())
  }

  lemma {:induction false} LastKeyedSurvives(ops: seq<OperationDefinition>, path: string, key: string) returns (i: nat)
    requires LastKeyed(ops, path, key).Some?
    ensures Survives(ops, i) && Keyed(ops[i], path, key) && ops[i] == LastKeyed(ops, path, key).value
  {
    i := |ops| - 1;
    if !Keyed(ops[i], path, key) {
      i := LastKeyedSurvives(ops[..i], path, key);
    }
  }

  lemma {:induction false} LastKeyedExists(ops: seq<OperationDefinition>, path: string, key: string, i: nat)
    requires i < |ops| && Keyed(ops[i], path, key)
    ensures LastKeyed(ops, path, key).Some?
    ensures Survives(ops, i) ==> LastKeyed(ops, path, key) == Some(ops[i])
  {
    var last := |ops| - 1;
    if !Keyed(ops[last], path, key) {
      assert ops[..last][i] == ops[i];
      LastKeyedExists(ops[..last], path, key, i);
    }
  }

  /** The table holds exactly the last operation of each path and method, and nothing else. */
  lemma {:induction false} PathsHoldLast(ops: seq<OperationDefinition>, path: string, key: string)
    ensures Lookup(PathsOf(ops), path, key)
         == match LastKeyed(ops, path, key)
            case None => None
            case Some(op) => Some(OperationObject(op))
  {
    if ops != [] {
      var last := |ops| - 1;
      var before, op := PathsOf(ops[..last]), ops[last];
      PathsHoldLast(ops[..last], path, key);
      var at := Normalize(op.path);
      var item := match Find(before, at) case None => [] case Some(methods) => methods;
      var updated := Set(item, op.verb.Key(), OperationObject(op));
      FindSet(before, at, updated, path);
      FindSet(item, op.verb.Key(), OperationObject(op), key);
    }
  }

  /** Every path once, and every method once under it; no path without a method. */
  ghost predicate ProperTable(paths: PathTable) {
    && DistinctKeys(paths)
    && forall i :: 0 <= i < |paths| ==> paths[i].1 != [] && DistinctKeys(paths[i].1)
  }

  lemma {:induction false} PathsAreProper(ops: seq<OperationDefinition>)
    ensures ProperTable(PathsOf(ops))
  {
    if ops != [] {
      var last := |ops| - 1;
      var before, op := PathsOf(ops[..last]), ops[last];
      PathsAreProper(ops[..last]);
      var at := Normalize(op.path);
      var item := match Find(before, at) case None => [] case Some(methods) => methods;
      if Has(before, at) {
        var i := FindSome(before, at);
      }
      SetKeepsKeysDistinct(item, op.verb.Key(), OperationObject(op));
      SetKeepsKeysDistinct(before, at, Set(item, op.verb.Key(), OperationObject(op)));
      forall i | 0 <= i < |PathsOf(ops)|
        ensures PathsOf(ops)[i].1 != [] && DistinctKeys(PathsOf(ops)[i].1)
      {
        if PathsOf(ops)[i] in before {
          var k :| 0 <= k < |before| && before[k] == PathsOf(ops)[i];
        }
      }
    }
  }

  // The order of paths and methods.

  function Keys<V>(entries: seq<(string, V)>): (keys: seq<string>)
    ensures |keys| == |entries| && forall i :: 0 <= i < |entries| ==> keys[i] == entries[i].0
  {
    seq(|entries|, i requires 0 <= i < |entries| => entries[i].0)
  }

  function AddKey(keys: seq<string>, key: string): seq<string> {
    if key in keys then keys else keys + [key]
  }

  lemma AddKeyCons(first: string, keys: seq<string>, key: string)
    ensures AddKey([first] + keys, key) == if first == key then [first] + keys else [first] + AddKey(keys, key)
  {
    if first != key && key !in keys {
      assert [first] + keys + [key] == [first] + (keys + [key]);
    }
  }

  lemma KeysCons<V>(entry: (string, V), rest: seq<(string, V)>)
    ensures Keys([entry] + rest) == [entry.0] + Keys(rest)
  {
  }

  lemma {:induction false} SetKeys<V>(entries: seq<(string, V)>, key: string, value: V)
    ensures Keys(Set(entries, key, value)) == AddKey(Keys(entries), key)
  {
    if entries != [] {
      var first, rest := entries[0], entries[1..];
      assert entries == [first] + rest;
      KeysCons(first, rest);
      AddKeyCons(first.0, Keys(rest), key);
      if first.0 == key {
        KeysCons((key, value), rest);
      } else {
        SetKeys(rest, key, value);
        KeysCons(first, Set(rest, key, value));
      }
    }
  }

  /** Keys in the order in which each first occurs. */
  function FirstKeys(keys: seq<string>): seq<string> {
    if keys == [] then [] else AddKey(FirstKeys(keys[..|keys| - 1]), keys[|keys| - 1])
  }

  lemma {:induction false} FirstKeysHold(keys: seq<string>, key: string)
    ensures key in FirstKeys(keys) <==> key in keys
  {
    if keys != [] {
      FirstKeysHold(keys[..|keys| - 1], key);
      assert keys == keys[..|keys| - 1] + [keys[|keys| - 1]];
    }
  }

  /** In other words: of two of them, the earlier one occurs before the other first does. */
  lemma {:induction false} FirstKeysMeans(keys: seq<string>, i: nat, j: nat) returns (k: nat)
    requires i < j < |FirstKeys(keys)|
    ensures k < |keys| && keys[k] == FirstKeys(keys)[i] && FirstKeys(keys)[j] !in keys[..k + 1]
  {
    var last := |keys| - 1;
    var before := FirstKeys(keys[..last]);
    if j < |before| {
      k := FirstKeysMeans(keys[..last], i, j);
      assert keys[..last][..k + 1] == keys[..k + 1];
    } else {
      FirstKeysHold(keys[..last], before[i]);
      FirstKeysHold(keys[..last], keys[last]);
      k :| 0 <= k < last && keys[..last][k] == before[i];
      assert forall m :: 0 <= m <= k ==> keys[..last][m] == keys[m];
    }
  }

  /** The paths of these operations, rewritten. */
  function RewrittenPaths(ops: seq<OperationDefinition>): seq<string> {
    if ops == [] then [] else RewrittenPaths(ops[..|ops| - 1]) + [Normalize(ops[|ops| - 1].path)]
  }

  /** The methods of the operations with this rewritten path. */
  function MethodsOf(ops: seq<OperationDefinition>, path: string): seq<string> {
    if ops == [] then []
    else
      var op := ops[|ops| - 1];
      MethodsOf(ops[..|ops| - 1], path) + (if Normalize(op.path) == path then [op.verb.Key()] else [])
  }

  lemma FirstKeysLast(keys: seq<string>, key: string)
    ensures FirstKeys(keys + [key]) == AddKey(FirstKeys(keys), key)
  {
    assert (keys + [key])[..|keys|] == keys;
  }

  function ItemOf(paths: PathTable, path: string): seq<(string, Tree)> {
    match Find(paths, path)
    case None => []
    case Some(methods) => methods
  }

  /** The paths are listed as they first occur. */
  lemma {:induction false} PathsInOrder(ops: seq<OperationDefinition>)
    ensures Keys(PathsOf(ops)) == FirstKeys(RewrittenPaths(ops))
  {
    if ops != [] {
      var before, op := ops[..|ops| - 1], ops[|ops| - 1];
      PathsInOrder(before);
      var item := ItemOf(PathsOf(before), Normalize(op.path));
      SetKeys(PathsOf(before), Normalize(op.path), Set(item, op.verb.Key(), OperationObject(op)));
      FirstKeysLast(RewrittenPaths(before), Normalize(op.path));
    }
  }

  /** The methods of each path are listed as they first occur with it. */
  lemma {:induction false} MethodsInOrder(ops: seq<OperationDefinition>, path: string)
    ensures Keys(ItemOf(PathsOf(ops), path)) == FirstKeys(MethodsOf(ops, path))
  {
    if ops != [] {
      var before, op := ops[..|ops| - 1], ops[|ops| - 1];
      MethodsInOrder(before, path);
      var at, key := Normalize(op.path), op.verb.Key();
      var updated := Set(ItemOf(PathsOf(before), at), key, OperationObject(op));
      FindSet(PathsOf(before), at, updated, path);
      if at == path {
        SetKeys(ItemOf(PathsOf(before), at), key, OperationObject(op));
        FirstKeysLast(MethodsOf(before, path), key);
      } else {
        assert MethodsOf(before, path) + [] == MethodsOf(before, path);
      }
    }
  }

  method BuildDocumentPaths(ops: seq<OperationDefinition>) returns (paths: PathTable)
    ensures paths == PathsOf(ops) && ProperTable(paths)
    ensures forall path, key :: Lookup(paths, path, key)
                             == match LastKeyed(ops, path, key)
                                case None => None
                                case Some(op) => Some(OperationObject(op))
  {
    paths := [];
    for i := 0 to |ops|
      invariant paths == PathsOf(ops[..i])
    {
      var path := Normalize(ops[i].path);
      ghost var before := paths;
      if !Has(paths, path) {
        paths := Set(paths, path, []);
        FindSet(before, path, [], path);
      }
      var item := Find(paths, path).value;
      ghost var updated := Set(item, ops[i].verb.Key(), OperationObject(ops[i]));
      SetAgain(before, path, [], updated);
      paths := Set(paths, path, Set(item, ops[i].verb.Key(), OperationObject(ops[i])));
      assert ops[..i + 1][..i] == ops[..i];
    }
    assert ops[..|ops|] == ops;
    PathsAreProper(ops);
    forall path, key
      ensures Lookup(paths, path, key)
           == match LastKeyed(ops, path, key)
              case None => None
              case Some(op) => Some(OperationObject(op))
    {
      PathsHoldLast(ops, path, key);
    }
  }

  // The document.

  /** The parts of the document that are fixed text: its description, its servers and its tags. */
  datatype About = About(description: string, servers: seq<(string, string)>, tags: seq<(string, string)>)

  function Described(kind: string, pairs: seq<(string, string)>): seq<Tree> {
    if pairs == [] then []
    else
      [Tree(Object([(kind, Text(pairs[0].0)), ("description", Text(pairs[0].1))]))] + Described(kind, pairs[1..])
  }

  function PathEntries(paths: PathTable): (entries: seq<(string, Tree)>)
    ensures |entries| == |paths|
    ensures forall i :: 0 <= i < |paths| ==> entries[i] == (paths[i].0, Tree(Object(paths[i].1)))
  {
    if paths == [] then [] else [(paths[0].0, Tree(Object(paths[0].1)))] + PathEntries(paths[1..])
  }

  function Info(about: About): Tree {
    Tree(Object([("title", Text("Rentify Backend API")), ("version", Text("1.0.0")),
                 ("description", Text(about.description))]))
  }

  /** The document before undefined values are dropped. */
  function RawDocument(about: About, ops: seq<OperationDefinition>, components: seq<(string, Tree)>): Tree {
    Tree(Object([
      ("openapi", Text("3.1.0")),
      ("info", Info(about)),
      ("servers", Tree(Array(Described("url", about.servers)))),
      ("tags", Tree(Array(Described("name", about.tags)))),
      ("paths", Tree(Object(PathEntries(PathsOf(ops))))),
      ("components", Tree(Object(components)))
    ]))
  }

  /** `buildOpenApiDocument`, over any operations and components. */
  function BuildDocument(about: About, ops: seq<OperationDefinition>, components: seq<(string, Tree)>): Tree {
    Strip(RawDocument(about, ops, components))
  }

  lemma OperationKeysDistinct(op: OperationDefinition)
    ensures DistinctKeys(OperationEntries(op))
  {
  }

  /** The place of a key among those of an operation object. */
  function KeyRank(key: string): nat {
    match key
    case "operationId" => 0
    case "summary" => 1
    case "description" => 2
    case "tags" => 3
    case "security" => 4
    case "x-rentify-permissions" => 5
    case "parameters" => 6
    case "requestBody" => 7
    case "responses" => 8
    case _ => 9
  }

  /** An operation object has no other keys, and has them in this order. */
  lemma OperationKeysInOrder(op: OperationDefinition)
    ensures var entries := OperationEntries(op);
            && (forall i :: 0 <= i < |entries| ==> KeyRank(entries[i].0) < 9)
            && (forall i, j :: 0 <= i < j < |entries| ==> KeyRank(entries[i].0) < KeyRank(entries[j].0))
  {
  }

  /** The properties every operation object has, and one that none has. */
  lemma OperationProps(op: OperationDefinition)
    ensures Find(OperationEntries(op), "operationId") == Some(Text(op.operationId))
    ensures Find(OperationEntries(op), "summary") == Some(Text(op.summary))
    ensures Find(OperationEntries(op), "description") == Some(Text(op.description))
    ensures Find(OperationEntries(op), "tags") == Some(Tree(Array(Texts(op.tags))))
    ensures Find(OperationEntries(op), "x-rentify-permissions") == Some(Tree(Object(op.permissions)))
    ensures Find(OperationEntries(op), "responses") == Some(Tree(Object(op.responses)))
    ensures Find(OperationEntries(op), "$ref") == None
  {
    var entries := OperationEntries(op);
    OperationKeysDistinct(op);
    FindAt(entries, 0);
    FindAt(entries, 1);
    FindAt(entries, 2);
    FindAt(entries, 3);
    FindAt(entries, if op.security.Some? then 5 else 4);
    FindAt(entries, |entries| - 1);
    FindNone(entries, "$ref");
  }

  /** The properties an operation object has when its definition has them. */
  lemma OptionalProps(op: OperationDefinition)
    ensures Find(OperationEntries(op), "security")
         == if op.security.Some? then Some(Tree(Array(op.security.value))) else None
    ensures Find(OperationEntries(op), "parameters")
         == if op.parameters.Some? then Some(Tree(Array(op.parameters.value))) else None
    ensures Find(OperationEntries(op), "requestBody")
         == if op.requestBody.Some? then Some(Tree(Object(op.requestBody.value))) else None
  {
    var entries := OperationEntries(op);
    OperationKeysDistinct(op);
    FindNone(entries, "security");
    FindNone(entries, "parameters");
    FindNone(entries, "requestBody");
    if op.security.Some? {
      FindAt(entries, 4);
    }
    if op.parameters.Some? {
      FindAt(entries, if op.security.Some? then 6 else 5);
    }
    if op.requestBody.Some? {
      FindAt(entries, |entries| - 2);
    }
  }

  /** An object with a name of this kind and a description, in this order, and nothing else. */
  ghost predicate DescribedAs(t: Tree, kind: string, pair: (string, string)) {
    t == Tree(Object([(kind, Tree(String(pair.0))), ("description", Tree(String(pair.1)))]))
  }

  lemma {:induction false} DescribedAt(kind: string, pairs: seq<(string, string)>)
    ensures |Described(kind, pairs)| == |pairs|
    ensures forall i :: 0 <= i < |pairs| ==> DescribedAs(Described(kind, pairs)[i], kind, pairs[i])
  {
    if pairs != [] {
      DescribedAt(kind, pairs[1..]);
    }
  }

  ghost predicate DescribedAll(items: seq<Tree>, kind: string, pairs: seq<(string, string)>) {
    |items| == |pairs| && forall i :: 0 <= i < |pairs| ==> DescribedAs(items[i], kind, pairs[i])
  }

  lemma InfoStripped(about: About)
    ensures Strip(Info(about)) == Info(about)
  {
    CleanIsFixed(Info(about));
  }

  /** Entries that are all defined stay where they are. */
  lemma {:induction false} StripDefined(entries: seq<(string, Tree)>)
    requires forall i :: 0 <= i < |entries| ==> !entries[i].1.shape.Undefined?
    ensures |StripEntries(entries)| == |entries|
    ensures forall i :: 0 <= i < |entries| ==> StripEntries(entries)[i] == (entries[i].0, Strip(entries[i].1))
    ensures Keys(StripEntries(entries)) == Keys(entries)
  {
    if entries != [] {
      StripDefined(entries[1..]);
    }
  }

  lemma DescribedStripped(kind: string, pairs: seq<(string, string)>)
    ensures Strip(Tree(Array(Described(kind, pairs)))) == Tree(Array(Described(kind, pairs)))
  {
    DescribedAt(kind, pairs);
    var items := Described(kind, pairs);
    forall i | 0 <= i < |items|
      ensures CleanPart(items[i])
    {
      assert DescribedAs(items[i], kind, pairs[i]);
      var entries := items[i].shape.entries;
      assert entries == [entries[0], entries[1]];
      assert CleanPart(entries[0].1) && CleanPart(entries[1].1);
    }
    CleanIsFixed(Tree(Array(items)));
  }

  lemma RawKeys(about: About, ops: seq<OperationDefinition>, components: seq<(string, Tree)>)
    ensures var entries := RawDocument(about, ops, components).shape.entries;
            && Keys(entries) == ["openapi", "info", "servers", "tags", "paths", "components"]
            && forall i :: 0 <= i < |entries| ==> !entries[i].1.shape.Undefined?
  {
  }

  /**
   * The six entries of the document, in order: its version, its information, its
   * servers and tags as they are described, its paths and its components.
   */
  lemma BuiltEntries(about: About, ops: seq<OperationDefinition>, components: seq<(string, Tree)>)
    ensures var built := BuildDocument(about, ops, components).shape;
            && built.Object?
            && Keys(built.entries) == ["openapi", "info", "servers", "tags", "paths", "components"]
            && built.entries[0].1 == Tree(String("3.1.0"))
            && built.entries[1].1 == Tree(Object([("title", Tree(String("Rentify Backend API"))),
                                                  ("version", Tree(String("1.0.0"))),
                                                  ("description", Tree(String(about.description)))]))
            && built.entries[2].1.shape.Array? && DescribedAll(built.entries[2].1.shape.items, "url", about.servers)
            && built.entries[3].1.shape.Array? && DescribedAll(built.entries[3].1.shape.items, "name", about.tags)
            && built.entries[4].1 == Strip(Tree(Object(PathEntries(PathsOf(ops)))))
            && built.entries[5].1 == Strip(Tree(Object(components)))
  {
    DescribedStripped("url", about.servers);
    DescribedStripped("name", about.tags);
    DescribedAt("url", about.servers);
    DescribedAt("name", about.tags);
    InfoStripped(about);
    RawKeys(about, ops, components);
    var raw := RawDocument(about, ops, components).shape.entries;
    StripDefined(raw);
  }
}
