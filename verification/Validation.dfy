/** The structural validation of an OpenAPI document: `validateOpenApiDocumentStructure`. */
module Validation {
  import opened Wrappers
  import opened JsonValues
  import opened References

  const HTTP_METHODS: set<string> := {"get", "post", "put", "delete", "patch"}

  /** What can be wrong with one operation. */
  datatype Defect =
    | NotAnOperation
    | NoSummary
    | NoOperationId
    | NoTags
    | NoPermissions
    | NoResponses
    | BodyNotAnObject
    | BodyContentNotAnObject
    | BodyJsonUnreadable
    | BodyWithoutExample
    | ResponsesNotAnObject
    | PrimaryNotAnObject
    | PrimaryContentNotAnObject
    | PrimaryJsonUnreadable
    | PrimaryWithoutExample
  {
    /** The place of its check among those of an operation. */
    function Rank(): nat {
      match this
      case NotAnOperation => 0
      case NoSummary => 1
      case NoOperationId => 2
      case NoTags => 3
      case NoPermissions => 4
      case NoResponses => 5
      case BodyNotAnObject => 6
      case BodyContentNotAnObject => 7
      case BodyJsonUnreadable => 8
      case BodyWithoutExample => 9
      case ResponsesNotAnObject => 10
      case PrimaryNotAnObject => 11
      case PrimaryContentNotAnObject => 12
      case PrimaryJsonUnreadable => 13
      case PrimaryWithoutExample => 14
    }
  }

  /** What can be wrong with a document. */
  datatype Fault =
    | WrongVersion
    | InfoNotAnObject
    | TitleBlank
    | VersionBlank
    | PathsNotAnObject
    | PathNotRooted(path: string)
    | PathItemNotAnObject(path: string)
    | AtOperation(path: string, verb: string, defect: Defect)
    | BadReference(ref: string, why: Unresolved)

  // Blank strings.

  /** The white space and line terminators that `trim` removes. */
  predicate Space(c: char) {
    || '\t' <= c <= '\r' || c == ' ' || c == '\U{A0}' || c == '\U{1680}' || '\U{2000}' <= c <= '\U{200A}'
    || c == '\U{2028}' || c == '\U{2029}' || c == '\U{202F}' || c == '\U{205F}' || c == '\U{3000}' || c == '\U{FEFF}'
  }

  function TrimStart(s: string): string {
    if s != "" && Space(s[0]) then TrimStart(s[1..]) else s
  }

  function TrimEnd(s: string): string {
    if s != "" && Space(s[|s| - 1]) then TrimEnd(s[..|s| - 1]) else s
  }

  function Trim(s: string): string {
    TrimEnd(TrimStart(s))
  }

  /** Their numbers: those of white space and line terminators in ECMAScript. */
  ghost const WHITE_SPACE: set<int> :=
    {9, 10, 11, 12, 13, 32, 160, 5760, 8192, 8193, 8194, 8195, 8196, 8197, 8198, 8199, 8200, 8201, 8202,
     8232, 8233, 8239, 8287, 12288, 65279}

  lemma SpaceIff(c: char)
    ensures Space(c) <==> c as int in WHITE_SPACE
  {
  }

  ghost predicate Blank(s: string) {
    forall i :: 0 <= i < |s| ==> s[i] as int in WHITE_SPACE
  }

  lemma {:induction false} TrimStartBlank(s: string)
    ensures TrimStart(s) == "" <==> Blank(s)
    ensures TrimStart(s) != "" ==> !Space(TrimStart(s)[0])
  {
    if s != "" {
      SpaceIff(s[0]);
    }
    if s != "" && Space(s[0]) {
      TrimStartBlank(s[1..]);
      assert forall i :: 0 < i < |s| ==> s[i] == s[1..][i - 1];
    }
  }

  lemma {:induction false} TrimEndKeeps(s: string)
    requires s != "" && !Space(s[0])
    ensures TrimEnd(s) != ""
  {
    if Space(s[|s| - 1]) {
      TrimEndKeeps(s[..|s| - 1]);
    }
  }

  /** A string trims to nothing exactly when it holds nothing but white space. */
  lemma TrimBlank(s: string)
    ensures Trim(s) == "" <==> Blank(s)
  {
    TrimStartBlank(s);
    if TrimStart(s) != "" {
      TrimEndKeeps(TrimStart(s));
    }
  }

  ghost predicate NonBlankString<V>(shape: Shape<V>) {
    shape.String? && !Blank(shape.s)
  }

  predicate TrimsToText<V>(shape: Shape<V>) {
    shape.String? && Trim(shape.s) != ""
  }

  // Operations.

  /** The first success response an operation lists. */
  function Primary<V>(view: V -> Shape<V>, responses: Shape<V>): Option<Shape<V>> {
    if !responses.Object? then None
    else if Has(responses.entries, "200") then Some(Prop(view, responses, "200"))
    else if Has(responses.entries, "201") then Some(Prop(view, responses, "201"))
    else if Has(responses.entries, "202") then Some(Prop(view, responses, "202"))
    else None
  }

  /** A value with no keys to look for an example among. */
  predicate Unreadable<V>(content: Shape<V>) {
    content.Truthy() && !Container(content)
  }

  predicate WithoutExample<V>(content: Shape<V>) {
    content.Array? || (content.Object? && !Has(content.entries, "example") && !Has(content.entries, "examples"))
  }

  function PrimaryJson<V>(view: V -> Shape<V>, op: Shape<V>): Shape<V> {
    match Primary(view, Prop(view, op, "responses"))
    case None => Undefined
    case Some(response) => Prop(view, Prop(view, response, "content"), "application/json")
  }

  /** Content with neither of the keys `example` and `examples`; arrays have neither. */
  ghost predicate LacksExample<V>(content: Shape<V>) {
    || content.Array?
    || (content.Object? && forall i :: 0 <= i < |content.entries| ==>
          content.entries[i].0 != "example" && content.entries[i].0 != "examples")
  }

  lemma LacksExampleIff<V>(content: Shape<V>)
    ensures WithoutExample(content) <==> LacksExample(content)
  {
    if content.Object? {
      FindNone(content.entries, "example");
      FindNone(content.entries, "examples");
    }
  }

  /** The statuses of success responses, in the order they are looked for. */
  const SUCCESS: seq<string> := ["200", "201", "202"]

  /** The primary response is that of the first of these statuses there is. */
  lemma PrimaryIff<V>(view: V -> Shape<V>, entries: seq<(string, V)>, i: nat)
    requires i <= 3 && forall j :: 0 <= j < i ==> !Has(entries, SUCCESS[j])
    ensures i == 3 ==> Primary(view, Object(entries)) == None
    ensures i < 3 && Has(entries, SUCCESS[i]) ==>
              Primary(view, Object(entries)) == Some(Prop(view, Object(entries), SUCCESS[i]))
  {
    assert i > 0 ==> !Has(entries, SUCCESS[0]);
    assert i > 1 ==> !Has(entries, SUCCESS[1]);
    assert i > 2 ==> !Has(entries, SUCCESS[2]);
  }

  /** Which defects an operation has, each on its own terms. */
  ghost predicate HasDefect<V>(view: V -> Shape<V>, op: Shape<V>, defect: Defect) {
    var body := Prop(view, op, "requestBody");
    var bodyContent := Prop(view, body, "content");
    var bodyJson := Prop(view, bodyContent, "application/json");
    var responses := Prop(view, op, "responses");
    var primary := Primary(view, responses);
    match defect
    case NotAnOperation => !op.Object?
    case NoSummary => op.Object? && !NonBlankString(Prop(view, op, "summary"))
    case NoOperationId => op.Object? && !NonBlankString(Prop(view, op, "operationId"))
    case NoTags => op.Object? && !(Prop(view, op, "tags").Array? && Prop(view, op, "tags").items != [])
    case NoPermissions => op.Object? && Falsy(Prop(view, op, "x-rentify-permissions"))
    case NoResponses => op.Object? && Falsy(responses)
    case BodyNotAnObject => !Falsy(body) && !body.Object?
    case BodyContentNotAnObject => body.Object? && !bodyContent.Object?
    case BodyJsonUnreadable => !Falsy(bodyJson) && !bodyJson.Array? && !bodyJson.Object?
    case BodyWithoutExample => LacksExample(bodyJson)
    case ResponsesNotAnObject => !Falsy(responses) && !responses.Object?
    case PrimaryNotAnObject => primary.Some? && !primary.value.Object?
    case PrimaryContentNotAnObject =>
      primary.Some? && !Falsy(Prop(view, primary.value, "content")) && !Prop(view, primary.value, "content").Object?
    case PrimaryJsonUnreadable =>
      var json := PrimaryJson(view, op);
      !Falsy(json) && !json.Array? && !json.Object?
    case PrimaryWithoutExample => LacksExample(PrimaryJson(view, op))
  }

  /** The checks of an operation's fields, in the order they are made; the first to fail throws. */
  function FieldDefect<V>(view: V -> Shape<V>, op: Shape<V>): Option<Defect> {
    if !op.Object? then Some(NotAnOperation)
    else if !TrimsToText(Prop(view, op, "summary")) then Some(NoSummary)
    else if !TrimsToText(Prop(view, op, "operationId")) then Some(NoOperationId)
    else if !Prop(view, op, "tags").Array? || Prop(view, op, "tags").items == [] then Some(NoTags)
    else if !Prop(view, op, "x-rentify-permissions").Truthy() then Some(NoPermissions)
    else if !Prop(view, op, "responses").Truthy() then Some(NoResponses)
    else None
  }

  function BodyDefect<V>(view: V -> Shape<V>, body: Shape<V>): Option<Defect> {
    var content := Prop(view, body, "content");
    var json := Prop(view, content, "application/json");
    if !body.Truthy() then None
    else if !body.Object? then Some(BodyNotAnObject)
    else if !content.Object? then Some(BodyContentNotAnObject)
    else if Unreadable(json) then Some(BodyJsonUnreadable)
    else if WithoutExample(json) then Some(BodyWithoutExample)
    else None
  }

  function ResponseDefect<V>(view: V -> Shape<V>, responses: Shape<V>): Option<Defect> {
    if !responses.Object? then Some(ResponsesNotAnObject)
    else
      match Primary(view, responses)
      case None => None
      case Some(response) =>
        var content := Prop(view, response, "content");
        var json := Prop(view, content, "application/json");
        if !response.Object? then Some(PrimaryNotAnObject)
        else if !content.Truthy() then None
        else if !content.Object? then Some(PrimaryContentNotAnObject)
        else if Unreadable(json) then Some(PrimaryJsonUnreadable)
        else if WithoutExample(json) then Some(PrimaryWithoutExample)
        else None
  }

  /** `validateOperationExamples`. */
  function ExampleDefect<V>(view: V -> Shape<V>, op: Shape<V>): Option<Defect> {
    var inBody := BodyDefect(view, Prop(view, op, "requestBody"));
    if inBody.Some? then inBody else ResponseDefect(view, Prop(view, op, "responses"))
  }

  /** All the checks of one operation. */
  function FirstDefect<V>(view: V -> Shape<V>, op: Shape<V>): Option<Defect> {
    var inFields := FieldDefect(view, op);
    if inFields.Some? then inFields else ExampleDefect(view, op)
  }

  lemma TextIsNonBlank<V>(shape: Shape<V>)
    ensures TrimsToText(shape) <==> NonBlankString(shape)
  {
    if shape.String? {
      TrimBlank(shape.s);
    }
  }

  /** `found` is the defect with the least rank, of those ranked between `low` and `high`, for all this defect tells. */
  ghost predicate Least<V>(
    view: V -> Shape<V>, op: Shape<V>, low: nat, high: nat, found: Option<Defect>, defect: Defect)
  {
    && (found.Some? ==> low <= found.value.Rank() < high)
    && (found == Some(defect) ==> HasDefect(view, op, defect))
    && (low <= defect.Rank() < high && HasDefect(view, op, defect) ==>
          found.Some? && found.value.Rank() <= defect.Rank())
  }

  lemma FieldDefectIsLeast<V>(view: V -> Shape<V>, op: Shape<V>, defect: Defect)
    ensures Least(view, op, 0, 6, FieldDefect(view, op), defect)
  {
    TextIsNonBlank(Prop(view, op, "summary"));
    TextIsNonBlank(Prop(view, op, "operationId"));
  }

  lemma BodyDefectIsLeast<V>(view: V -> Shape<V>, op: Shape<V>, defect: Defect)
    ensures Least(view, op, 6, 10, BodyDefect(view, Prop(view, op, "requestBody")), defect)
  {
    LacksExampleIff(Prop(view, Prop(view, Prop(view, op, "requestBody"), "content"), "application/json"));
  }

  lemma ResponseDefectIsLeast<V>(view: V -> Shape<V>, op: Shape<V>, defect: Defect)
    requires Prop(view, op, "responses").Truthy()
    ensures Least(view, op, 10, 15, ResponseDefect(view, Prop(view, op, "responses")), defect)
  {
    LacksExampleIff(PrimaryJson(view, op));
  }

  lemma FirstDefectIsLeast<V>(view: V -> Shape<V>, op: Shape<V>, defect: Defect)
    ensures Least(view, op, 0, 15, FirstDefect(view, op), defect)
  {
    FieldDefectIsLeast(view, op, defect);
    BodyDefectIsLeast(view, op, defect);
    if FieldDefect(view, op).None? {
      ResponseDefectIsLeast(view, op, defect);
    }
  }

  lemma SameRank(a: Defect, b: Defect)
    requires a.Rank() == b.Rank()
    ensures a == b
  {
  }

  /** The checks report exactly the first defect, in the order of the checks, that the operation has. */
  lemma FirstDefectExact<V>(view: V -> Shape<V>, op: Shape<V>)
    ensures FirstDefect(view, op).None? <==> forall defect :: !HasDefect(view, op, defect)
    ensures forall defect :: FirstDefect(view, op) == Some(defect) <==>
              && HasDefect(view, op, defect)
              && forall earlier: Defect :: earlier.Rank() < defect.Rank() ==> !HasDefect(view, op, earlier)
  {
    var found := FirstDefect(view, op);
    forall defect: Defect
      ensures found == Some(defect) ==> HasDefect(view, op, defect)
      ensures HasDefect(view, op, defect) ==> found.Some? && found.value.Rank() <= defect.Rank()
    {
      FirstDefectIsLeast(view, op, defect);
    }
    forall defect: Defect
      ensures found.Some? && found.value.Rank() == defect.Rank() ==> found.value == defect
    {
      if found.Some? && found.value.Rank() == defect.Rank() {
        SameRank(found.value, defect);
      }
    }
  }

  // Documents.

  predicate Rooted(path: string) {
    path != "" && path[0] == '/'
  }

  /** The operation a document holds for a path and an HTTP method. */
  function OperationAt<V>(view: V -> Shape<V>, document: Shape<V>, path: string, verb: string): Option<Shape<V>>
  {
    var paths := Prop(view, document, "paths");
    var item := Prop(view, paths, path);
    if verb in {"get", "post", "put", "delete", "patch"} && item.Object? && Has(item.entries, verb)
    then Some(Prop(view, item, verb))
    else None
  }

  /** Which structural faults a document has, each on its own terms. */
  ghost predicate HasFault<V>(view: V -> Shape<V>, document: Shape<V>, fault: Fault) {
    var info, paths := Prop(view, document, "info"), Prop(view, document, "paths");
    match fault
    case WrongVersion => !(Prop(view, document, "openapi").String? && Prop(view, document, "openapi").s == "3.1.0")
    case InfoNotAnObject => !info.Object?
    case TitleBlank => info.Object? && !NonBlankString(Prop(view, info, "title"))
    case VersionBlank => info.Object? && !NonBlankString(Prop(view, info, "version"))
    case PathsNotAnObject => !paths.Object?
    case PathNotRooted(path) => paths.Object? && Has(paths.entries, path) && (path == "" || path[0] != '/')
    case PathItemNotAnObject(path) => paths.Object? && Has(paths.entries, path) && !Prop(view, paths, path).Object?
    case AtOperation(path, verb, defect) =>
      var op := OperationAt(view, document, path, verb);
      op.Some? && HasDefect(view, op.value, defect)
    case BadReference(_, _) => false
  }

  /** The object holds a reference that does not resolve within the document. */
  ghost predicate BadReferenceAt(g: Graph, document: nat, id: nat, ref: string, why: Unresolved) {
    && Reaches(g, document, id) && id in g
    && Prop(At(g), g[id], "$ref") == String(ref)
    && Resolve(At(g), document, ref) == Err(why)
  }

  /** A reference somewhere in the document that does not resolve within it. */
  ghost predicate HasBadReference(g: Graph, document: nat, ref: string, why: Unresolved) {
    exists id :: BadReferenceAt(g, document, id, ref, why)
  }

  /** Everything `validateOpenApiDocumentStructure` is to find wrong with a document. */
  ghost predicate Faulty(g: Graph, document: nat, fault: Fault)
    requires document in g
  {
    if fault.BadReference? then HasBadReference(g, document, fault.ref, fault.why)
    else HasFault(At(g), g[document], fault)
  }

  ghost predicate CleanOperations<V>(view: V -> Shape<V>, entries: seq<(string, V)>, count: nat) {
    forall i :: 0 <= i < count <= |entries| && entries[i].0 in HTTP_METHODS ==>
      FirstDefect(view, view(entries[i].1)).None?
  }

  /** An entry of `paths` with nothing wrong. */
  ghost predicate CleanPath<V>(view: V -> Shape<V>, path: string, item: Shape<V>) {
    Rooted(path) && item.Object? && CleanOperations(view, item.entries, |item.entries|)
  }

  ghost predicate CleanPaths<V>(view: V -> Shape<V>, entries: seq<(string, V)>, count: nat) {
    forall i :: 0 <= i < count <= |entries| ==> CleanPath(view, entries[i].0, view(entries[i].1))
  }

  /** Clean entries leave no operation with a defect. */
  lemma CleanItemHasNoDefect<V>(view: V -> Shape<V>, item: Shape<V>, verb: string, defect: Defect)
    requires item.Object? && CleanOperations(view, item.entries, |item.entries|)
    requires verb in HTTP_METHODS && Has(item.entries, verb)
    ensures !HasDefect(view, Prop(view, item, verb), defect)
  {
    var i := FindSome(item.entries, verb);
    FirstDefectExact(view, view(item.entries[i].1));
  }

  lemma CleanPathsHaveNoFault<V>(view: V -> Shape<V>, document: Shape<V>, fault: Fault)
    requires Prop(view, document, "paths").Object?
    requires CleanPaths(view, Prop(view, document, "paths").entries, |Prop(view, document, "paths").entries|)
    requires fault.PathNotRooted? || fault.PathItemNotAnObject? || fault.AtOperation?
    ensures !HasFault(view, document, fault)
  {
    var paths := Prop(view, document, "paths");
    if Has(paths.entries, fault.path) {
      var i := FindSome(paths.entries, fault.path);
      assert CleanPath(view, paths.entries[i].0, view(paths.entries[i].1));
      if fault.AtOperation? && OperationAt(view, document, fault.path, fault.verb).Some? {
        CleanItemHasNoDefect(view, Prop(view, paths, fault.path), fault.verb, fault.defect);
      }
    }
  }

  // Which fault is the first.

  /** The operation at place `j` has a defect, and none before it has. */
  ghost predicate FirstDefective<V>(
    view: V -> Shape<V>, path: string, entries: seq<(string, V)>, j: nat, fault: Fault)
  {
    && j < |entries| && CleanOperations(view, entries, j) && entries[j].0 in HTTP_METHODS
    && FirstDefect(view, view(entries[j].1)).Some?
    && fault == AtOperation(path, entries[j].0, FirstDefect(view, view(entries[j].1)).value)
  }

  ghost predicate FirstInItem<V>(view: V -> Shape<V>, path: string, entries: seq<(string, V)>, fault: Fault) {
    exists j: nat :: FirstDefective(view, path, entries, j, fault)
  }

  ghost predicate FirstOfPath<V>(view: V -> Shape<V>, path: string, item: Shape<V>, fault: Fault) {
    if !Rooted(path) then fault == PathNotRooted(path)
    else if !item.Object? then fault == PathItemNotAnObject(path)
    else FirstInItem(view, path, item.entries, fault)
  }

  /** The entry at place `i` has a fault, of which this is the first, and none before it has. */
  ghost predicate FirstFaulty<V>(view: V -> Shape<V>, entries: seq<(string, V)>, i: nat, fault: Fault) {
    && i < |entries| && CleanPaths(view, entries, i)
    && FirstOfPath(view, entries[i].0, view(entries[i].1), fault)
  }

  ghost predicate FirstInPaths<V>(view: V -> Shape<V>, entries: seq<(string, V)>, fault: Fault) {
    exists i: nat :: FirstFaulty(view, entries, i, fault)
  }

  lemma FirstInItemHas<V>(view: V -> Shape<V>, path: string, entries: seq<(string, V)>, fault: Fault)
    requires FirstInItem(view, path, entries, fault)
    ensures fault.AtOperation? && fault.path == path && fault.verb in HTTP_METHODS
    ensures DistinctKeys(entries) ==>
              && Has(entries, fault.verb)
              && HasDefect(view, Prop(view, Object(entries), fault.verb), fault.defect)
    ensures !CleanOperations(view, entries, |entries|)
  {
    var j: nat :| FirstDefective(view, path, entries, j, fault);
    FirstDefectExact(view, view(entries[j].1));
    if DistinctKeys(entries) {
      FindAt(entries, j);
    }
  }

  lemma FirstInItemUnique<V>(view: V -> Shape<V>, path: string, entries: seq<(string, V)>, a: Fault, b: Fault)
    requires FirstInItem(view, path, entries, a) && FirstInItem(view, path, entries, b)
    ensures a == b
  {
    var i: nat :| FirstDefective(view, path, entries, i, a);
    var j: nat :| FirstDefective(view, path, entries, j, b);
    assert i == j;
  }

  lemma FirstOfPathIsNotClean<V>(view: V -> Shape<V>, path: string, item: Shape<V>, fault: Fault)
    requires FirstOfPath(view, path, item, fault)
    ensures !CleanPath(view, path, item)
  {
    if Rooted(path) && item.Object? {
      FirstInItemHas(view, path, item.entries, fault);
    }
  }

  lemma FirstInPathsUnique<V>(view: V -> Shape<V>, entries: seq<(string, V)>, a: Fault, b: Fault)
    requires FirstInPaths(view, entries, a) && FirstInPaths(view, entries, b)
    ensures a == b
  {
    var i: nat :| FirstFaulty(view, entries, i, a);
    var j: nat :| FirstFaulty(view, entries, j, b);
    var path, item := entries[i].0, view(entries[i].1);
    FirstOfPathIsNotClean(view, path, item, a);
    FirstOfPathIsNotClean(view, entries[j].0, view(entries[j].1), b);
    assert i == j;
    if Rooted(path) && item.Object? {
      FirstInItemUnique(view, path, item.entries, a, b);
    }
  }

  /** An object read from a well-formed graph has each key once. */
  lemma PropDistinct(g: Graph, of: Shape<nat>, key: string)
    requires WellFormed(g) && Prop(At(g), of, key).Object?
    ensures DistinctKeys(Prop(At(g), of, key).entries)
  {
  }

  lemma EntryFound<V>(view: V -> Shape<V>, document: Shape<V>, path: string)
    requires Prop(view, document, "paths").Object? && Has(Prop(view, document, "paths").entries, path)
    ensures HasFault(view, document, PathNotRooted(path)) <==> !Rooted(path)
    ensures HasFault(view, document, PathItemNotAnObject(path)) <==>
              !Prop(view, Prop(view, document, "paths"), path).Object?
  {
  }

  lemma OperationFound<V>(view: V -> Shape<V>, document: Shape<V>, path: string, verb: string, defect: Defect)
    requires var item := Prop(view, Prop(view, document, "paths"), path);
             item.Object? && verb in HTTP_METHODS && Has(item.entries, verb)
             && HasDefect(view, Prop(view, item, verb), defect)
    ensures HasFault(view, document, AtOperation(path, verb, defect))
  {
  }

  /** The first fault of the paths is one that the document has. */
  lemma FirstInPathsHas(g: Graph, document: Shape<nat>, fault: Fault)
    requires WellFormed(g) && Prop(At(g), document, "paths").Object?
    requires DistinctKeys(Prop(At(g), document, "paths").entries)
    requires FirstInPaths(At(g), Prop(At(g), document, "paths").entries, fault)
    ensures fault.PathNotRooted? || fault.PathItemNotAnObject? || fault.AtOperation?
    ensures HasFault(At(g), document, fault)
  {
    var paths := Prop(At(g), document, "paths");
    var i: nat :| FirstFaulty(At(g), paths.entries, i, fault);
    var path, item := paths.entries[i].0, At(g)(paths.entries[i].1);
    FindAt(paths.entries, i);
    assert Prop(At(g), paths, path) == item;
    EntryFound(At(g), document, path);
    if Rooted(path) && item.Object? {
      PropDistinct(g, paths, path);
      FirstInItemHas(At(g), path, item.entries, fault);
      assert item == Object(item.entries);
      OperationFound(At(g), document, path, fault.verb, fault.defect);
    }
  }

  /** The checks of one path's operations. */
  method ValidatePathItem(g: Graph, path: string, item: Shape<nat>) returns (fault: Option<Fault>)
    requires item.Object? && DistinctKeys(item.entries)
    ensures fault.None? ==> CleanOperations(At(g), item.entries, |item.entries|)
    ensures fault.Some? ==>
              && FirstInItem(At(g), path, item.entries, fault.value)
              && fault.value.AtOperation? && fault.value.path == path
              && fault.value.verb in HTTP_METHODS && Has(item.entries, fault.value.verb)
              && HasDefect(At(g), Prop(At(g), item, fault.value.verb), fault.value.defect)
  {
    var entries := item.entries;
    for i := 0 to |entries|
      invariant CleanOperations(At(g), entries, i)
    {
      var (verb, operation) := entries[i];
      if verb in HTTP_METHODS {
        var defect := FirstDefect(At(g), At(g)(operation));
        if defect.Some? {
          fault := Some(AtOperation(path, verb, defect.value));
          assert FirstDefective(At(g), path, entries, i, fault.value);
          FirstInItemHas(At(g), path, entries, fault.value);
          return;
        }
      }
    }
    fault := None;
  }

  /** The checks of `paths`. */
  method ValidatePaths(g: Graph, document: Shape<nat>) returns (fault: Option<Fault>)
    requires WellFormed(g)
    requires Prop(At(g), document, "paths").Object? && DistinctKeys(Prop(At(g), document, "paths").entries)
    ensures fault.None? ==>
              CleanPaths(At(g), Prop(At(g), document, "paths").entries, |Prop(At(g), document, "paths").entries|)
    ensures fault.Some? ==>
              && FirstInPaths(At(g), Prop(At(g), document, "paths").entries, fault.value)
              && !fault.value.BadReference? && HasFault(At(g), document, fault.value)
  {
    var entries := Prop(At(g), document, "paths").entries;
    for i := 0 to |entries|
      invariant CleanPaths(At(g), entries, i)
    {
      var (path, pathItem) := entries[i];
      var item := At(g)(pathItem);
      if !Rooted(path) {
        fault := Some(PathNotRooted(path));
      } else if !item.Object? {
        fault := Some(PathItemNotAnObject(path));
      } else {
        fault := ValidatePathItem(g, path, item);
      }
      if fault.Some? {
        assert FirstFaulty(At(g), entries, i, fault.value);
        FirstInPathsHas(g, document, fault.value);
        return;
      }
    }
    fault := None;
  }

  /** The checks made before `paths` is walked. */
  function HeaderFault<V>(view: V -> Shape<V>, document: Shape<V>): Option<Fault> {
    var version, info := Prop(view, document, "openapi"), Prop(view, document, "info");
    if !(version.String? && version.s == "3.1.0") then Some(WrongVersion)
    else if !info.Object? then Some(InfoNotAnObject)
    else if !TrimsToText(Prop(view, info, "title")) then Some(TitleBlank)
    else if !TrimsToText(Prop(view, info, "version")) then Some(VersionBlank)
    else if !Prop(view, document, "paths").Object? then Some(PathsNotAnObject)
    else None
  }

  ghost predicate InHeader(fault: Fault) {
    !(fault.PathNotRooted? || fault.PathItemNotAnObject? || fault.AtOperation? || fault.BadReference?)
  }

  /** The place of its check among those of the header. */
  function HeaderRank(fault: Fault): nat {
    match fault
    case WrongVersion => 0
    case InfoNotAnObject => 1
    case TitleBlank => 2
    case VersionBlank => 3
    case _ => 4
  }

  /** The checks of the header report exactly the first fault there is in it. */
  lemma HeaderFaultExact<V>(view: V -> Shape<V>, document: Shape<V>)
    ensures HeaderFault(view, document).None? ==> Prop(view, document, "paths").Object?
    ensures HeaderFault(view, document).None? <==> forall fault :: InHeader(fault) ==> !HasFault(view, document, fault)
    ensures forall fault :: HeaderFault(view, document) == Some(fault) <==>
              && InHeader(fault) && HasFault(view, document, fault)
              && forall earlier ::
                   InHeader(earlier) && HeaderRank(earlier) < HeaderRank(fault) ==> !HasFault(view, document, earlier)
  {
    var info := Prop(view, document, "info");
    TextIsNonBlank(Prop(view, info, "title"));
    TextIsNonBlank(Prop(view, info, "version"));
    var found := HeaderFault(view, document);
    assert found.Some? ==> InHeader(found.value) && HasFault(view, document, found.value);
    assert forall fault :: InHeader(fault) && HasFault(view, document, fault) ==>
        found.Some? && HeaderRank(found.value) <= HeaderRank(fault);
    assert forall a, b :: InHeader(a) && InHeader(b) && HeaderRank(a) == HeaderRank(b) ==> a == b;
  }

  ghost predicate SoundStructure<V>(view: V -> Shape<V>, document: Shape<V>) {
    forall fault :: !HasFault(view, document, fault)
  }

  /** The first structural fault, in the order of the checks and of the entries. */
  ghost predicate FirstInStructure<V>(view: V -> Shape<V>, document: Shape<V>, fault: Fault) {
    if HeaderFault(view, document).Some? then HeaderFault(view, document) == Some(fault)
    else Prop(view, document, "paths").Object? && FirstInPaths(view, Prop(view, document, "paths").entries, fault)
  }

  lemma FirstInStructureHas(g: Graph, document: Shape<nat>, fault: Fault)
    requires WellFormed(g) && FirstInStructure(At(g), document, fault)
    ensures !fault.BadReference? && HasFault(At(g), document, fault)
  {
    HeaderFaultExact(At(g), document);
    if HeaderFault(At(g), document).None? {
      PropDistinct(g, document, "paths");
      FirstInPathsHas(g, document, fault);
    }
  }

  lemma CleanStructure<V>(view: V -> Shape<V>, document: Shape<V>)
    requires HeaderFault(view, document).None? && Prop(view, document, "paths").Object?
    requires CleanPaths(view, Prop(view, document, "paths").entries, |Prop(view, document, "paths").entries|)
    ensures SoundStructure(view, document)
  {
    HeaderFaultExact(view, document);
    forall fault
      ensures !HasFault(view, document, fault)
    {
      if !InHeader(fault) && !fault.BadReference? {
        CleanPathsHaveNoFault(view, document, fault);
      }
    }
  }

  /** Everything but the references. */
  method ValidateStructure(g: Graph, document: Shape<nat>) returns (fault: Option<Fault>)
    requires WellFormed(g)
    ensures fault.Some? ==> FirstInStructure(At(g), document, fault.value)
    ensures fault.None? ==> SoundStructure(At(g), document)
  {
    HeaderFaultExact(At(g), document);
    fault := HeaderFault(At(g), document);
    if fault.Some? {
      return;
    }
    PropDistinct(g, document, "paths");
    fault := ValidatePaths(g, document);
    if fault.None? {
      CleanStructure(At(g), document);
    }
  }

  ghost predicate SoundReferences(g: Graph, document: nat) {
    forall ref, why :: !HasBadReference(g, document, ref, why)
  }

  /** What the visit of a reference throws. */
  function ReferenceFault(g: Graph, document: nat): string -> Option<Fault> {
    ref =>
      match Resolve(At(g), document, ref)
      case Ok(_) => None
      case Err(why) => Some(BadReference(ref, why))
  }

  /** The first reference that does not resolve, in the depth-first order of the walk. */
  ghost predicate FirstInReferences(g: Graph, document: nat, fault: Fault) {
    exists i: nat ::
      && ThrowsFirst(g, ReferenceFault(g, document), WalkOrder(g, document), i)
      && Throws(g, ReferenceFault(g, document), WalkOrder(g, document)[i]) == Some(fault)
  }

  lemma BadReferenceThrows(g: Graph, document: nat, id: nat, ref: string, why: Unresolved)
    requires Reaches(g, document, id) && id in g
    ensures BadReferenceAt(g, document, id, ref, why)
       <==> Throws(g, ReferenceFault(g, document), id) == Some(BadReference(ref, why))
    ensures BadReferenceAt(g, document, id, ref, why) ==> Refers(g, document, id)
  {
  }

  lemma FirstInReferencesHas(g: Graph, document: nat, fault: Fault)
    requires WellFormed(g) && document in g && FirstInReferences(g, document, fault)
    ensures fault.BadReference? && HasBadReference(g, document, fault.ref, fault.why)
  {
    var visit, order := ReferenceFault(g, document), WalkOrder(g, document);
    var i: nat :| ThrowsFirst(g, visit, order, i) && Throws(g, visit, order[i]) == Some(fault);
    WalkOrderMeans(g, document);
    assert order[i] in order;
    BadReferenceThrows(g, document, order[i], fault.ref, fault.why);
  }

  lemma AllResolve(g: Graph, document: nat)
    requires forall id :: Refers(g, document, id) ==> Throws(g, ReferenceFault(g, document), id).None?
    ensures SoundReferences(g, document)
  {
    forall ref, why
      ensures !HasBadReference(g, document, ref, why)
    {
      if HasBadReference(g, document, ref, why) {
        var id :| BadReferenceAt(g, document, id, ref, why);
        BadReferenceThrows(g, document, id, ref, why);
      }
    }
  }

  /** The references. */
  method ValidateReferences(g: Graph, document: nat) returns (fault: Option<Fault>)
    requires WellFormed(g) && document in g
    ensures fault.Some? ==>
              && FirstInReferences(g, document, fault.value)
              && fault.value.BadReference? && HasBadReference(g, document, fault.value.ref, fault.value.why)
    ensures fault.None? ==> SoundReferences(g, document)
  {
    ghost var visited;
    fault, visited := WalkReferences(g, document, ReferenceFault(g, document));
    if fault.Some? {
      var i := FirstThrownAt(g, ReferenceFault(g, document), WalkOrder(g, document));
      FirstInReferencesHas(g, document, fault.value);
    } else {
      AllResolve(g, document);
    }
  }

  lemma FirstInReferencesUnique(g: Graph, document: nat, a: Fault, b: Fault)
    requires FirstInReferences(g, document, a) && FirstInReferences(g, document, b)
    ensures a == b
  {
    var visit, order := ReferenceFault(g, document), WalkOrder(g, document);
    var i: nat :| ThrowsFirst(g, visit, order, i) && Throws(g, visit, order[i]) == Some(a);
    var j: nat :| ThrowsFirst(g, visit, order, j) && Throws(g, visit, order[j]) == Some(b);
    assert i == j;
  }

  /** Nothing at all is wrong with the document. */
  ghost predicate Sound(g: Graph, document: nat)
    requires document in g
  {
    forall fault :: !Faulty(g, document, fault)
  }

  lemma FaultyIsNotSound(g: Graph, document: nat, fault: Fault)
    requires document in g && Faulty(g, document, fault)
    ensures !Sound(g, document)
  {
  }

  lemma SoundMeans(g: Graph, document: nat)
    requires document in g
    ensures Sound(g, document) <==> SoundStructure(At(g), g[document]) && SoundReferences(g, document)
  {
    if Sound(g, document) {
      forall fault
        ensures !HasFault(At(g), g[document], fault)
      {
        assert !Faulty(g, document, fault);
      }
      forall ref, why
        ensures !HasBadReference(g, document, ref, why)
      {
        assert !Faulty(g, document, BadReference(ref, why));
      }
    }
  }

  /** The first fault of a document: structural, or of a reference when its structure is sound. */
  ghost predicate FirstFault(g: Graph, document: nat, fault: Fault)
    requires document in g
  {
    || FirstInStructure(At(g), g[document], fault)
    || (SoundStructure(At(g), g[document]) && FirstInReferences(g, document, fault))
  }

  lemma FirstFaultHas(g: Graph, document: nat, fault: Fault)
    requires WellFormed(g) && document in g && FirstFault(g, document, fault)
    ensures Faulty(g, document, fault)
  {
    if FirstInStructure(At(g), g[document], fault) {
      FirstInStructureHas(g, g[document], fault);
    } else {
      FirstInReferencesHas(g, document, fault);
    }
  }

  lemma FirstFaultUnique(g: Graph, document: nat, a: Fault, b: Fault)
    requires WellFormed(g) && document in g && FirstFault(g, document, a) && FirstFault(g, document, b)
    ensures a == b
  {
    if FirstInStructure(At(g), g[document], a) {
      FirstInStructureHas(g, g[document], a);
      if HeaderFault(At(g), g[document]).None? {
        FirstInPathsUnique(At(g), Prop(At(g), g[document], "paths").entries, a, b);
      }
    } else {
      if FirstInStructure(At(g), g[document], b) {
        FirstInStructureHas(g, g[document], b);
      }
      FirstInReferencesUnique(g, document, a, b);
    }
  }

  /**
   * `validateOpenApiDocumentStructure`: reports the first fault of the document,
   * and accepts the document exactly when it has none at all.
   */
  method ValidateDocument(g: Graph, document: nat) returns (fault: Option<Fault>)
    requires WellFormed(g) && document in g && g[document].Object?
    ensures forall f :: fault == Some(f) <==> FirstFault(g, document, f)
    ensures fault.Some? ==> Faulty(g, document, fault.value)
    ensures fault.None? <==> Sound(g, document)
  {
    fault := ValidateStructure(g, g[document]);
    if fault.None? {
      fault := ValidateReferences(g, document);
    }
    SoundMeans(g, document);
    if fault.Some? {
      FirstFaultHas(g, document, fault.value);
      FaultyIsNotSound(g, document, fault.value);
    }
    forall f | FirstFault(g, document, f)
      ensures fault == Some(f)
    {
      FirstFaultHas(g, document, f);
      FaultyIsNotSound(g, document, f);
      FirstFaultUnique(g, document, f, fault.value);
    }
  }

  /**
   * Of two references that do not resolve, in objects one node holds, the one at
   * the earlier place is reported, when nothing else holds the later object.
   */
  lemma EarlierBadReported(
    g: Graph, document: nat, node: nat, i: nat, j: nat, x: nat, y: nat, ref: string, why: Unresolved)
    requires WellFormed(g) && document in g && node in g && Reaches(g, document, node)
    requires SoundStructure(At(g), g[document])
    requires i < j && HeldAt(g[node], i, x) && HeldOnlyAt(g, node, j, y) && y != document
    requires BadReferenceAt(g, document, x, ref, why)
    requires y in g && Prop(At(g), g[y], "$ref").String?
    requires forall id, other, cause :: BadReferenceAt(g, document, id, other, cause) ==> id == x || id == y
    ensures FirstFault(g, document, BadReference(ref, why))
  {
    var visit, order := ReferenceFault(g, document), WalkOrder(g, document);
    EarlierPlaceFirst(g, document, node, i, j, x, y);
    WalkOrderMeans(g, document);
    var p, q :| 0 <= p < q < |order| && order[p] == x && order[q] == y;
    forall k | 0 <= k < p
      ensures Throws(g, visit, order[k]).None?
    {
      assert order[k] in order;
      if Throws(g, visit, order[k]).Some? {
        var fault := Throws(g, visit, order[k]).value;
        BadReferenceThrows(g, document, order[k], fault.ref, fault.why);
      }
    }
    BadReferenceThrows(g, document, x, ref, why);
    assert ThrowsFirst(g, visit, order, p);
  }
}
