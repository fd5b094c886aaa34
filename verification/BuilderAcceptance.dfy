/** When the validator accepts what the builder builds. */
module BuilderAcceptance {
  import opened Wrappers
  import opened JsonPointer
  import opened JsonValues
  import opened References
  import opened RoutePaths
  import opened StripUndefined
  import opened SpecBuilder
  import opened Validation
  import opened Denotation

  // What an operation definition must hold.

  predicate Defined(shape: Shape<Tree>, key: string) {
    !Prop(ShapeOf, shape, key).Undefined?
  }

  /** The JSON of this content, if there is any, has an example that is not undefined. */
  predicate HasJsonExample(content: Shape<Tree>) {
    var json := Prop(ShapeOf, content, "application/json");
    json.Truthy() ==> json.Object? && (Defined(json, "example") || Defined(json, "examples"))
  }

  /** The first of the success responses that is not undefined. */
  function FirstSuccess(responses: Shape<Tree>): Option<Shape<Tree>> {
    if Defined(responses, "200") then Some(Prop(ShapeOf, responses, "200"))
    else if Defined(responses, "201") then Some(Prop(ShapeOf, responses, "201"))
    else if Defined(responses, "202") then Some(Prop(ShapeOf, responses, "202"))
    else None
  }

  ghost predicate AcceptableBody(body: Shape<Tree>) {
    var content := Prop(ShapeOf, body, "content");
    content.Object? && HasJsonExample(content)
  }

  ghost predicate AcceptableResponse(response: Shape<Tree>) {
    var content := Prop(ShapeOf, response, "content");
    response.Object? && (content.Truthy() ==> content.Object? && HasJsonExample(content))
  }

  ghost predicate AcceptableExamples(op: OperationDefinition) {
    && (op.requestBody.Some? ==> AcceptableBody(Object(op.requestBody.value)))
    && (FirstSuccess(Object(op.responses)).Some? ==> AcceptableResponse(FirstSuccess(Object(op.responses)).value))
  }

  /** What the validator asks of an operation, said of its definition. */
  ghost predicate Acceptable(op: OperationDefinition) {
    && !Blank(op.summary)
    && !Blank(op.operationId)
    && op.tags != []
    && AcceptableExamples(op)
  }

  /** The values an operation is defined with are values a program can hold. */
  ghost predicate ProperOperation(op: OperationDefinition) {
    && (op.security.Some? ==> Proper(Tree(Array(op.security.value))))
    && Proper(Tree(Object(op.permissions)))
    && (op.parameters.Some? ==> Proper(Tree(Array(op.parameters.value))))
    && (op.requestBody.Some? ==> Proper(Tree(Object(op.requestBody.value))))
    && Proper(Tree(Object(op.responses)))
  }

  ghost predicate ProperInput(ops: seq<OperationDefinition>, components: seq<(string, Tree)>) {
    && (forall op :: op in ops ==> ProperOperation(op))
    && Proper(Tree(Object(components)))
  }

  // Stripping and the checks of one operation.

  lemma ProperProp(t: Tree, key: string)
    requires Proper(t)
    ensures Proper(Tree(Prop(ShapeOf, t.shape, key)))
    ensures t.shape.Object? ==> DistinctKeys(t.shape.entries)
  {
    if t.shape.Object? && Has(t.shape.entries, key) {
      var i := FindSome(t.shape.entries, key);
    }
  }

  lemma ContentStripped(t: Tree)
    requires Proper(t)
    ensures t.shape.Truthy() == Strip(t).shape.Truthy() && t.shape.Object? == Strip(t).shape.Object?
    ensures Unreadable(Strip(t).shape) || WithoutExample(Strip(t).shape)
       <==> t.shape.Truthy() && !(t.shape.Object? && (Defined(t.shape, "example") || Defined(t.shape, "examples")))
  {
    ProperProp(t, "example");
    StripProp(t, "example");
    StripProp(t, "examples");
  }

  /** The JSON content read from a stripped value lacks an example exactly when it does before stripping. */
  lemma JsonStripped(content: Tree)
    requires Proper(content)
    ensures var json := Prop(ShapeOf, Strip(content).shape, "application/json");
            Unreadable(json) || WithoutExample(json) <==> !HasJsonExample(content.shape)
  {
    ProperProp(content, "application/json");
    StripProp(content, "application/json");
    ContentStripped(Tree(Prop(ShapeOf, content.shape, "application/json")));
  }

  lemma BodyStripped(body: Tree)
    requires Proper(body) && body.shape.Object?
    ensures var content := Prop(ShapeOf, Strip(body).shape, "content");
            var json := Prop(ShapeOf, content, "application/json");
            content.Object? && !Unreadable(json) && !WithoutExample(json) <==> AcceptableBody(body.shape)
  {
    var content := Tree(Prop(ShapeOf, body.shape, "content"));
    ProperProp(body, "content");
    StripProp(body, "content");
    ContentStripped(content);
    JsonStripped(content);
  }

  lemma ResponseStripped(response: Tree)
    requires Proper(response)
    ensures var content := Prop(ShapeOf, Strip(response).shape, "content");
            var json := Prop(ShapeOf, content, "application/json");
            Strip(response).shape.Object? && (content.Truthy() ==> content.Object?)
              && !Unreadable(json) && !WithoutExample(json)
            <==> AcceptableResponse(response.shape)
  {
    var content := Tree(Prop(ShapeOf, response.shape, "content"));
    ProperProp(response, "content");
    StripProp(response, "content");
    ContentStripped(response);
    ContentStripped(content);
    JsonStripped(content);
  }

  lemma PrimaryStripped(responses: Tree)
    requires Proper(responses) && responses.shape.Object?
    ensures Primary(ShapeOf, Strip(responses).shape)
         == match FirstSuccess(responses.shape)
            case None => None
            case Some(response) => Some(Strip(Tree(response)).shape)
  {
    ProperProp(responses, "200");
    StripProp(responses, "200");
    StripProp(responses, "201");
    StripProp(responses, "202");
  }

  lemma {:induction false} TextsStripped(ss: seq<string>)
    ensures StripItems(Texts(ss)) == Texts(ss)
  {
    if ss != [] {
      TextsStripped(ss[1..]);
      assert Texts(ss)[1..] == Texts(ss[1..]);
    }
  }

  /** Reading the entries of a built operation. */
  lemma BuiltOperation(op: OperationDefinition)
    ensures var built := Strip(OperationObject(op)).shape;
            && built.Object?
            && Prop(ShapeOf, built, "summary") == String(op.summary)
            && Prop(ShapeOf, built, "operationId") == String(op.operationId)
            && Prop(ShapeOf, built, "tags") == Array(Texts(op.tags))
            && Prop(ShapeOf, built, "x-rentify-permissions").Truthy()
            && Prop(ShapeOf, built, "responses") == Strip(Tree(Object(op.responses))).shape
            && Prop(ShapeOf, built, "requestBody")
                 == if op.requestBody.Some? then Strip(Tree(Object(op.requestBody.value))).shape else Undefined
  {
    OperationKeysDistinct(op);
    OperationProps(op);
    OptionalProps(op);
    TextsStripped(op.tags);
    StripProp(OperationObject(op), "summary");
    StripProp(OperationObject(op), "operationId");
    StripProp(OperationObject(op), "tags");
    StripProp(OperationObject(op), "x-rentify-permissions");
    StripProp(OperationObject(op), "responses");
    StripProp(OperationObject(op), "requestBody");
  }

  lemma BuiltResponsesIff(responses: Tree)
    requires Proper(responses) && responses.shape.Object?
    ensures ResponseDefect(ShapeOf, Strip(responses).shape).None?
       <==> (FirstSuccess(responses.shape).Some? ==> AcceptableResponse(FirstSuccess(responses.shape).value))
  {
    PrimaryStripped(responses);
    if FirstSuccess(responses.shape).Some? {
      ProperProp(responses, "200");
      ProperProp(responses, "201");
      ProperProp(responses, "202");
      ResponseStripped(Tree(FirstSuccess(responses.shape).value));
    }
  }

  lemma BuiltExamplesIff(op: OperationDefinition)
    requires ProperOperation(op)
    ensures ExampleDefect(ShapeOf, Strip(OperationObject(op)).shape).None? <==> AcceptableExamples(op)
  {
    BuiltOperation(op);
    BuiltResponsesIff(Tree(Object(op.responses)));
    if op.requestBody.Some? {
      BodyStripped(Tree(Object(op.requestBody.value)));
    }
  }

  /** A built operation has no defect exactly when its definition is acceptable. */
  lemma BuiltOperationSoundIff(op: OperationDefinition)
    requires ProperOperation(op)
    ensures (forall defect :: !HasDefect(ShapeOf, Strip(OperationObject(op)).shape, defect)) <==> Acceptable(op)
  {
    BuiltOperation(op);
    FirstDefectExact(ShapeOf, Strip(OperationObject(op)).shape);
    TrimBlank(op.summary);
    TrimBlank(op.operationId);
    BuiltExamplesIff(op);
  }

  // Reading the built document.

  lemma {:induction false} FindPathEntry(paths: PathTable, path: string)
    ensures Find(PathEntries(paths), path)
         == match Find(paths, path)
            case None => None
            case Some(methods) => Some(Tree(Object(methods)))
  {
    if paths != [] {
      FindPathEntry(paths[1..], path);
      FindCons((paths[0].0, Tree(Object(paths[0].1))), PathEntries(paths[1..]), path);
    }
  }

  lemma RawProps(about: About, ops: seq<OperationDefinition>, components: seq<(string, Tree)>)
    ensures var entries := RawDocument(about, ops, components).shape.entries;
            && DistinctKeys(entries)
            && Find(entries, "openapi") == Some(Text("3.1.0"))
            && Find(entries, "info") == Some(Info(about))
            && Find(entries, "paths") == Some(Tree(Object(PathEntries(PathsOf(ops)))))
            && Find(entries, "components") == Some(Tree(Object(components)))
            && Find(entries, "$ref") == None
  {
    var entries := RawDocument(about, ops, components).shape.entries;
    FindAt(entries, 0);
    FindAt(entries, 1);
    FindAt(entries, 4);
    FindAt(entries, 5);
    FindNone(entries, "$ref");
  }

  lemma PathEntriesDistinct(ops: seq<OperationDefinition>)
    ensures DistinctKeys(PathEntries(PathsOf(ops)))
  {
    PathsAreProper(ops);
  }

  /** The path items of the built document. */
  lemma BuiltItem(about: About, ops: seq<OperationDefinition>, components: seq<(string, Tree)>, path: string)
    ensures var paths := Prop(ShapeOf, BuildDocument(about, ops, components).shape, "paths");
            && paths.Object?
            && (Has(paths.entries, path) <==> Has(PathsOf(ops), path))
            && Prop(ShapeOf, paths, path)
                 == if Has(PathsOf(ops), path) then Strip(Tree(Object(Find(PathsOf(ops), path).value))).shape
                    else Undefined
  {
    RawProps(about, ops, components);
    StripProp(RawDocument(about, ops, components), "paths");
    PathEntriesDistinct(ops);
    StripProp(Tree(Object(PathEntries(PathsOf(ops)))), path);
    FindPathEntry(PathsOf(ops), path);
  }

  lemma FoundMethodsDistinct(ops: seq<OperationDefinition>, path: string)
    requires Has(PathsOf(ops), path)
    ensures DistinctKeys(Find(PathsOf(ops), path).value)
  {
    PathsAreProper(ops);
    var i := FindSome(PathsOf(ops), path);
  }

  /** The operations of the built document are the last ones defined for each path and method. */
  lemma BuiltOperationAt(
    about: About, ops: seq<OperationDefinition>, components: seq<(string, Tree)>, path: string, verb: string)
    ensures OperationAt(ShapeOf, BuildDocument(about, ops, components).shape, path, verb)
         == match LastKeyed(ops, path, verb)
            case None => None
            case Some(op) => Some(Strip(OperationObject(op)).shape)
  {
    BuiltItem(about, ops, components, path);
    PathsHoldLast(ops, path, verb);
    if Has(PathsOf(ops), path) {
      var methods := Tree(Object(Find(PathsOf(ops), path).value));
      FoundMethodsDistinct(ops, path);
      StripProp(methods, verb);
      assert Prop(ShapeOf, methods.shape, verb)
          == if LastKeyed(ops, path, verb).Some? then OperationObject(LastKeyed(ops, path, verb).value).shape
             else Undefined;
    }
    if LastKeyed(ops, path, verb).Some? {
      var i := LastKeyedSurvives(ops, path, verb);
    }
  }

  /** Every operation in the table comes from a definition that survives. */
  lemma TableEntry(ops: seq<OperationDefinition>, i: nat, j: nat) returns (k: nat)
    requires i < |PathsOf(ops)| && j < |PathsOf(ops)[i].1|
    ensures Survives(ops, k) && PathsOf(ops)[i].1[j].1 == OperationObject(ops[k])
    ensures Keyed(ops[k], PathsOf(ops)[i].0, PathsOf(ops)[i].1[j].0)
  {
    var (path, methods) := PathsOf(ops)[i];
    PathsAreProper(ops);
    FindAt(PathsOf(ops), i);
    FindAt(methods, j);
    PathsHoldLast(ops, path, methods[j].0);
    k := LastKeyedSurvives(ops, path, methods[j].0);
  }

  /** Every definition that survives is in the table. */
  lemma SurvivorEntry(ops: seq<OperationDefinition>, k: nat) returns (i: nat, j: nat)
    requires Survives(ops, k)
    ensures i < |PathsOf(ops)| && j < |PathsOf(ops)[i].1|
    ensures PathsOf(ops)[i].0 == Normalize(ops[k].path) && PathsOf(ops)[i].1[j].1 == OperationObject(ops[k])
  {
    var path, key := Normalize(ops[k].path), ops[k].verb.Key();
    LastKeyedExists(ops, path, key, k);
    PathsHoldLast(ops, path, key);
    i := FindSome(PathsOf(ops), path);
    j := FindSome(PathsOf(ops)[i].1, key);
  }

  // The structure of the built document.

  lemma NormalizeRooted(path: string)
    ensures Rooted(Normalize(path)) <==> Rooted(path)
  {
  }

  ghost predicate SurvivorsAcceptable(ops: seq<OperationDefinition>) {
    forall i :: 0 <= i < |ops| && Survives(ops, i) ==> Rooted(ops[i].path) && Acceptable(ops[i])
  }

  lemma BuiltInfo(about: About)
    ensures var info := Strip(Info(about)).shape;
            && info.Object?
            && NonBlankString(Prop(ShapeOf, info, "title"))
            && NonBlankString(Prop(ShapeOf, info, "version"))
  {
    var info := Info(about);
    FindAt(info.shape.entries, 0);
    FindAt(info.shape.entries, 1);
    StripProp(info, "title");
    StripProp(info, "version");
    assert "Rentify Backend API"[0] == 'R' && "1.0.0"[0] == '1';
  }

  lemma BuiltHeader(about: About, ops: seq<OperationDefinition>, components: seq<(string, Tree)>, fault: Fault)
    requires InHeader(fault)
    ensures !HasFault(ShapeOf, BuildDocument(about, ops, components).shape, fault)
  {
    var raw := RawDocument(about, ops, components);
    RawProps(about, ops, components);
    StripProp(raw, "openapi");
    StripProp(raw, "info");
    BuiltInfo(about);
    BuiltItem(about, ops, components, "");
  }

  lemma BuiltFaultFree(about: About, ops: seq<OperationDefinition>, components: seq<(string, Tree)>, fault: Fault)
    requires ProperInput(ops, components) && SurvivorsAcceptable(ops)
    ensures !HasFault(ShapeOf, BuildDocument(about, ops, components).shape, fault)
  {
    match fault
    case PathNotRooted(path) =>
      BuiltItem(about, ops, components, path);
      if Has(PathsOf(ops), path) {
        PathsAreProper(ops);
        var i := FindSome(PathsOf(ops), path);
        var k := TableEntry(ops, i, 0);
        NormalizeRooted(ops[k].path);
      }
    case PathItemNotAnObject(path) =>
      BuiltItem(about, ops, components, path);
    case AtOperation(path, verb, defect) =>
      BuiltOperationAt(about, ops, components, path, verb);
      if LastKeyed(ops, path, verb).Some? {
        var k := LastKeyedSurvives(ops, path, verb);
        BuiltOperationSoundIff(ops[k]);
      }
    case BadReference(_, _) =>
    case _ => BuiltHeader(about, ops, components, fault);
  }

  lemma SoundOperationHasNoDefect(built: Shape<Tree>, path: string, verb: string)
    requires SoundStructure(ShapeOf, built) && OperationAt(ShapeOf, built, path, verb).Some?
    ensures forall defect :: !HasDefect(ShapeOf, OperationAt(ShapeOf, built, path, verb).value, defect)
  {
    forall defect
      ensures !HasDefect(ShapeOf, OperationAt(ShapeOf, built, path, verb).value, defect)
    {
      assert !HasFault(ShapeOf, built, AtOperation(path, verb, defect));
    }
  }

  lemma SoundSurvivorAcceptable(
    about: About, ops: seq<OperationDefinition>, components: seq<(string, Tree)>, k: nat)
    requires ProperInput(ops, components) && Survives(ops, k)
    requires SoundStructure(ShapeOf, BuildDocument(about, ops, components).shape)
    ensures Rooted(ops[k].path) && Acceptable(ops[k])
  {
    var built := BuildDocument(about, ops, components).shape;
    var path, verb := Normalize(ops[k].path), ops[k].verb.Key();
    LastKeyedExists(ops, path, verb, k);
    PathsHoldLast(ops, path, verb);
    BuiltItem(about, ops, components, path);
    assert !HasFault(ShapeOf, built, PathNotRooted(path));
    NormalizeRooted(ops[k].path);
    BuiltOperationAt(about, ops, components, path, verb);
    SoundOperationHasNoDefect(built, path, verb);
    BuiltOperationSoundIff(ops[k]);
  }

  /** The built document is well structured exactly when every surviving operation is acceptable. */
  lemma BuiltStructureIff(about: About, ops: seq<OperationDefinition>, components: seq<(string, Tree)>)
    requires ProperInput(ops, components)
    ensures SoundStructure(ShapeOf, BuildDocument(about, ops, components).shape) <==> SurvivorsAcceptable(ops)
  {
    if SurvivorsAcceptable(ops) {
      forall fault
        ensures !HasFault(ShapeOf, BuildDocument(about, ops, components).shape, fault)
      {
        BuiltFaultFree(about, ops, components, fault);
      }
    }
    if SoundStructure(ShapeOf, BuildDocument(about, ops, components).shape) {
      forall k | 0 <= k < |ops| && Survives(ops, k)
        ensures Rooted(ops[k].path) && Acceptable(ops[k])
      {
        SoundSurvivorAcceptable(about, ops, components, k);
      }
    }
  }

  // The references of the built document.

  lemma {:induction false} DescribedMentionsNothing(kind: string, pairs: seq<(string, string)>, ref: string)
    requires kind != "$ref" && kind != "description"
    ensures !ItemsMention(Described(kind, pairs), ref)
    ensures forall i :: 0 <= i < |pairs| ==> i < |Described(kind, pairs)| && Proper(Described(kind, pairs)[i])
    ensures |Described(kind, pairs)| == |pairs|
  {
    if pairs != [] {
      var entries := [(kind, Text(pairs[0].0)), ("description", Text(pairs[0].1))];
      FindNone(entries, "$ref");
      DescribedMentionsNothing(kind, pairs[1..], ref);
      ItemsMentionCons(Described(kind, pairs), ref);
    }
  }

  /** An object without a `$ref` string of its own mentions what its entries mention. */
  lemma ObjectMentions(entries: seq<(string, Tree)>, ref: string)
    requires match Find(entries, "$ref") case None => true case Some(value) => value.shape.Object?
    ensures Mentions(Tree(Object(entries)), ref) <==> EntriesMention(entries, ref)
  {
  }

  lemma InfoMentionsNothing(about: About, ref: string)
    ensures !Mentions(Info(about), ref) && Proper(Info(about))
  {
    FindNone(Info(about).shape.entries, "$ref");
  }

  ghost predicate SurvivorMentions(ops: seq<OperationDefinition>, ref: string) {
    exists k :: 0 <= k < |ops| && Survives(ops, k) && Mentions(OperationObject(ops[k]), ref)
  }

  lemma ItemMentions(ops: seq<OperationDefinition>, i: nat, ref: string)
    requires i < |PathsOf(ops)|
    ensures Mentions(Tree(Object(PathsOf(ops)[i].1)), ref) <==> EntriesMention(PathsOf(ops)[i].1, ref)
  {
    var methods := PathsOf(ops)[i].1;
    if Has(methods, "$ref") {
      var j := FindSome(methods, "$ref");
      var k := TableEntry(ops, i, j);
    }
    ObjectMentions(methods, ref);
  }

  /** The paths mention exactly what the surviving operations mention. */
  lemma PathsMentionIff(ops: seq<OperationDefinition>, ref: string)
    ensures Mentions(Tree(Object(PathEntries(PathsOf(ops)))), ref) <==> SurvivorMentions(ops, ref)
  {
    var entries := PathEntries(PathsOf(ops));
    FindPathEntry(PathsOf(ops), "$ref");
    ObjectMentions(entries, ref);
    if EntriesMention(entries, ref) {
      var i :| 0 <= i < |entries| && Mentions(entries[i].1, ref);
      ItemMentions(ops, i, ref);
      var j :| 0 <= j < |PathsOf(ops)[i].1| && Mentions(PathsOf(ops)[i].1[j].1, ref);
      var k := TableEntry(ops, i, j);
    }
    if SurvivorMentions(ops, ref) {
      var k :| 0 <= k < |ops| && Survives(ops, k) && Mentions(OperationObject(ops[k]), ref);
      var i, j := SurvivorEntry(ops, k);
      ItemMentions(ops, i, ref);
      assert Mentions(entries[i].1, ref);
    }
  }

  lemma SixMention(entries: seq<(string, Tree)>, ref: string)
    requires |entries| == 6 && forall i :: 0 <= i < 4 ==> !Mentions(entries[i].1, ref)
    ensures EntriesMention(entries, ref) <==> Mentions(entries[4].1, ref) || Mentions(entries[5].1, ref)
  {
  }

  lemma FixedTextMentionsNothing(about: About, ref: string)
    ensures !Mentions(Text("3.1.0"), ref) && !Mentions(Info(about), ref)
    ensures !Mentions(Tree(Array(Described("url", about.servers))), ref)
    ensures !Mentions(Tree(Array(Described("name", about.tags))), ref)
  {
    InfoMentionsNothing(about, ref);
    DescribedMentionsNothing("url", about.servers, ref);
    DescribedMentionsNothing("name", about.tags, ref);
  }

  /** The first four entries of the document mention nothing; the other two are the paths and the components. */
  lemma RawEntries(about: About, ops: seq<OperationDefinition>, components: seq<(string, Tree)>, ref: string)
    ensures var entries := RawDocument(about, ops, components).shape.entries;
            && |entries| == 6
            && (forall i :: 0 <= i < 4 ==> !Mentions(entries[i].1, ref))
            && entries[4].1 == Tree(Object(PathEntries(PathsOf(ops)))) && entries[5].1 == Tree(Object(components))
  {
    FixedTextMentionsNothing(about, ref);
    var entries := RawDocument(about, ops, components).shape.entries;
    assert entries[0].1 == Text("3.1.0") && entries[1].1 == Info(about);
  }

  lemma RawMentionsIff(about: About, ops: seq<OperationDefinition>, components: seq<(string, Tree)>, ref: string)
    ensures Mentions(RawDocument(about, ops, components), ref)
       <==> SurvivorMentions(ops, ref) || Mentions(Tree(Object(components)), ref)
  {
    var entries := RawDocument(about, ops, components).shape.entries;
    RawEntries(about, ops, components, ref);
    RawProps(about, ops, components);
    ObjectMentions(entries, ref);
    PathsMentionIff(ops, ref);
    SixMention(entries, ref);
  }

  lemma ProperOperationObject(op: OperationDefinition)
    requires ProperOperation(op)
    ensures Proper(OperationObject(op))
  {
    OperationKeysDistinct(op);
  }

  lemma ProperPaths(ops: seq<OperationDefinition>)
    requires forall op :: op in ops ==> ProperOperation(op)
    ensures Proper(Tree(Object(PathEntries(PathsOf(ops)))))
  {
    PathsAreProper(ops);
    var paths := PathsOf(ops);
    forall i | 0 <= i < |paths|
      ensures Proper(PathEntries(paths)[i].1)
    {
      forall j | 0 <= j < |paths[i].1|
        ensures Proper(paths[i].1[j].1)
      {
        var k := TableEntry(ops, i, j);
        ProperOperationObject(ops[k]);
      }
    }
  }

  lemma ProperRaw(about: About, ops: seq<OperationDefinition>, components: seq<(string, Tree)>)
    requires ProperInput(ops, components)
    ensures Proper(RawDocument(about, ops, components))
  {
    RawProps(about, ops, components);
    InfoMentionsNothing(about, "");
    DescribedMentionsNothing("url", about.servers, "");
    DescribedMentionsNothing("name", about.tags, "");
    ProperPaths(ops);
  }

  /** Each key in turn is there and holds a value that is not undefined. */
  ghost predicate StepsDefined(t: Tree, keys: seq<string>)
    decreases |keys|
  {
    keys != [] ==>
      && t.shape.Object? && Defined(t.shape, keys[0])
      && StepsDefined(Tree(Prop(ShapeOf, t.shape, keys[0])), keys[1..])
  }

  /** Exactly such steps can still be made once undefined values are dropped. */
  lemma {:induction false} StepsStripped(t: Tree, keys: seq<string>)
    requires Proper(t)
    ensures StepAll(ShapeOf, Strip(t), keys).Ok? <==> StepsDefined(t, keys)
    decreases |keys|
  {
    if keys != [] && t.shape.Object? {
      ProperProp(t, keys[0]);
      StripFind(t.shape.entries, keys[0]);
      StepsStripped(Tree(Prop(ShapeOf, t.shape, keys[0])), keys[1..]);
    }
  }

  /** The reference names, key by key, a value the builder was given or put together, and none of them is undefined. */
  ghost predicate RefersToInput(
    about: About, ops: seq<OperationDefinition>, components: seq<(string, Tree)>, ref: string)
  {
    match ParseReference(ref)
    case None => false
    case Some(keys) => StepsDefined(RawDocument(about, ops, components), keys)
  }

  /** Exactly such references resolve in the built document. */
  lemma ResolveIff(about: About, ops: seq<OperationDefinition>, components: seq<(string, Tree)>, ref: string)
    requires ProperInput(ops, components)
    ensures Resolve(ShapeOf, BuildDocument(about, ops, components), ref).Ok?
       <==> RefersToInput(about, ops, components, ref)
  {
    ProperRaw(about, ops, components);
    if ParseReference(ref).Some? {
      StepsStripped(RawDocument(about, ops, components), ParseReference(ref).value);
    }
  }

  /** Every reference of the surviving operations and of the components names a value that is there. */
  ghost predicate InputResolves(about: About, ops: seq<OperationDefinition>, components: seq<(string, Tree)>) {
    forall ref :: SurvivorMentions(ops, ref) || Mentions(Tree(Object(components)), ref) ==>
      RefersToInput(about, ops, components, ref)
  }

  lemma BuiltReferencesIff(about: About, ops: seq<OperationDefinition>, components: seq<(string, Tree)>)
    requires ProperInput(ops, components)
    ensures ReferencesResolve(BuildDocument(about, ops, components)) <==> InputResolves(about, ops, components)
  {
    var built := BuildDocument(about, ops, components);
    forall ref
      ensures Mentions(built, ref) <==> SurvivorMentions(ops, ref) || Mentions(Tree(Object(components)), ref)
    {
      ProperRaw(about, ops, components);
      StripKeepsReferences(RawDocument(about, ops, components), ref);
      RawMentionsIff(about, ops, components, ref);
    }
    forall ref
      ensures Resolve(ShapeOf, built, ref).Ok? <==> RefersToInput(about, ops, components, ref)
    {
      ResolveIff(about, ops, components, ref);
    }
  }

  /**
   * The validator accepts the built document, however its values are shared in
   * memory, exactly when every operation that is not replaced has a rooted path
   * and an acceptable definition, and every reference made resolves.
   */
  lemma BuilderAcceptedIff(
    about: About, ops: seq<OperationDefinition>, components: seq<(string, Tree)>, g: Graph, document: nat)
    requires ProperInput(ops, components)
    requires Denotes(g, document, BuildDocument(about, ops, components))
    ensures Sound(g, document) <==> SurvivorsAcceptable(ops) && InputResolves(about, ops, components)
  {
    SoundAlike(g, document, BuildDocument(about, ops, components));
    BuiltStructureIff(about, ops, components);
    BuiltReferencesIff(about, ops, components);
  }

  /** The built document can always be held in memory. */
  lemma BuiltDocumentExists(about: About, ops: seq<OperationDefinition>, components: seq<(string, Tree)>)
    returns (g: Graph, document: nat)
    requires ProperInput(ops, components)
    ensures WellFormed(g) && Denotes(g, document, BuildDocument(about, ops, components)) && g[document].Object?
  {
    ProperRaw(about, ops, components);
    StripIsProper(RawDocument(about, ops, components));
    g, document := Allocate(map[], BuildDocument(about, ops, components));
    DenotesObject(g, document, BuildDocument(about, ops, components));
  }

  // References to components.

  /** The component is there and not undefined. */
  predicate HasComponent(components: seq<(string, Tree)>, section: string, name: string) {
    var held := Prop(ShapeOf, Object(components), section);
    held.Object? && Defined(held, name)
  }

  lemma StepsDefinedCons(t: Tree, key: string, keys: seq<string>)
    ensures StepsDefined(t, [key] + keys)
       <==> t.shape.Object? && Defined(t.shape, key) && StepsDefined(Tree(Prop(ShapeOf, t.shape, key)), keys)
  {
  }

  lemma TwoSteps(t: Tree, first: string, second: string)
    ensures StepsDefined(t, [first, second])
       <==> t.shape.Object? && Defined(t.shape, first)
            && Prop(ShapeOf, t.shape, first).Object? && Defined(Prop(ShapeOf, t.shape, first), second)
  {
    assert [first] + [second] == [first, second] && [second] + [] == [second];
    StepsDefinedCons(t, first, [second]);
    StepsDefinedCons(Tree(Prop(ShapeOf, t.shape, first)), second, []);
  }

  lemma ComponentNamed(
    about: About, ops: seq<OperationDefinition>, components: seq<(string, Tree)>, section: string, name: string)
    ensures RefersToInput(about, ops, components, BuildReference(["components", section, name]))
       <==> HasComponent(components, section, name)
  {
    ParseBuild(["components", section, name]);
    RawProps(about, ops, components);
    StepsDefinedCons(RawDocument(about, ops, components), "components", [section, name]);
    assert ["components"] + [section, name] == ["components", section, name];
    TwoSteps(Tree(Object(components)), section, name);
  }

  /** A reference printed for a component resolves exactly when the component is there. */
  lemma ComponentReferenceIff(
    about: About, ops: seq<OperationDefinition>, components: seq<(string, Tree)>, section: string, name: string)
    requires Proper(Tree(Object(components)))
    ensures Resolve(ShapeOf, BuildDocument(about, ops, components), BuildReference(["components", section, name])).Ok?
       <==> HasComponent(components, section, name)
  {
    var built, all := BuildDocument(about, ops, components), Tree(Object(components));
    ResolveBuilt(ShapeOf, built, ["components", section, name]);
    RawProps(about, ops, components);
    StripFind(RawDocument(about, ops, components).shape.entries, "components");
    assert Find(built.shape.entries, "components") == Some(Strip(all));
    StepCons(ShapeOf, built, "components", [section, name]);
    assert ["components"] + [section, name] == ["components", section, name];
    StepsStripped(all, [section, name]);
    TwoSteps(all, section, name);
  }

  predicate Plain(name: string) {
    forall i :: 0 <= i < |name| ==> name[i] != '~' && name[i] != '/'
  }

  /** Escaping makes every other name longer. */
  lemma {:induction false} EscapeLength(name: string)
    ensures |name| <= |Escape(name)|
    ensures Plain(name) <==> |Escape(name)| == |name|
    ensures Plain(name) ==> Escape(name) == name
  {
    if name != "" {
      assert name == [name[0]] + name[1..];
      EscapeCons(name[0], name[1..]);
      EscapeLength(name[1..]);
    }
  }

  lemma EscapeEachCons(first: string, rest: seq<string>)
    ensures EscapeEach([first] + rest) == [Escape(first)] + EscapeEach(rest)
  {
  }

  lemma BuiltReference(top: string, section: string, name: string)
    ensures BuildReference([top, section, name])
         == "#/" + (Escape(top) + "/" + (Escape(section) + "/" + Escape(name)))
  {
    EscapeEachCons(top, [section, name]);
    EscapeEachCons(section, [name]);
    EscapeEachCons(name, []);
    JoinFirst(Escape(top), EscapeEach([section, name]));
    JoinFirst(Escape(section), EscapeEach([name]));
  }

  /** `schemaRef`, `responseRef` and `parameterRef`: the name is put in as it is. */
  function ComponentRef(section: string, name: string): string {
    "#/components/" + section + "/" + name
  }

  lemma ComponentsLiteral()
    ensures Plain("components") && "#/components/" == "#/" + "components" + "/"
  {
  }

  lemma AssociateAll(a: string, b: string, c: string, d: string, e: string)
    ensures a + (b + (c + (d + (c + e)))) == a + b + c + d + c + e
  {
  }

  lemma PrefixedRefIsBuilt(top: string, section: string, name: string)
    requires Plain(top)
    ensures "#/" + top + "/" + section + "/" + name == BuildReference([top, section, name])
       <==> Plain(section) && Plain(name)
  {
    EscapeLength(top);
    EscapeLength(section);
    EscapeLength(name);
    BuiltReference(top, section, name);
    AssociateAll("#/", top, "/", section, name);
  }

  /** That is the printed reference to the component exactly for names without tildes and slashes. */
  lemma ComponentRefIsBuilt(section: string, name: string)
    ensures ComponentRef(section, name) == BuildReference(["components", section, name])
       <==> Plain(section) && Plain(name)
  {
    ComponentsLiteral();
    EscapeLength("components");
    PrefixedRefIsBuilt("components", section, name);
  }

  /** A reference put together from the names of a component that is there. */
  ghost predicate RefersToComponent(components: seq<(string, Tree)>, ref: string) {
    exists section, name ::
      ref == BuildReference(["components", section, name]) && HasComponent(components, section, name)
  }

  /** Surviving operations and components refer only to components that are there. */
  ghost predicate RefersOnlyToComponents(ops: seq<OperationDefinition>, components: seq<(string, Tree)>) {
    forall ref :: SurvivorMentions(ops, ref) || Mentions(Tree(Object(components)), ref) ==>
      RefersToComponent(components, ref)
  }

  /** When operations and components refer only to components that are there, every reference resolves. */
  lemma ComponentReferencesResolve(about: About, ops: seq<OperationDefinition>, components: seq<(string, Tree)>)
    requires RefersOnlyToComponents(ops, components)
    ensures InputResolves(about, ops, components)
  {
    forall ref | SurvivorMentions(ops, ref) || Mentions(Tree(Object(components)), ref)
      ensures RefersToInput(about, ops, components, ref)
    {
      var section, name :|
        ref == BuildReference(["components", section, name]) && HasComponent(components, section, name);
      ComponentNamed(about, ops, components, section, name);
    }
  }

  /**
   * So the validator accepts whatever the builder builds of rooted, acceptable
   * operations, when they and the components refer only to components that are
   * there.
   */
  lemma BuilderAccepted(
    about: About, ops: seq<OperationDefinition>, components: seq<(string, Tree)>, g: Graph, document: nat)
    requires ProperInput(ops, components)
    requires Denotes(g, document, BuildDocument(about, ops, components))
    requires forall op :: op in ops ==> Rooted(op.path) && Acceptable(op)
    requires RefersOnlyToComponents(ops, components)
    ensures Sound(g, document)
  {
    ComponentReferencesResolve(about, ops, components);
    BuilderAcceptedIff(about, ops, components, g, document);
  }
}
