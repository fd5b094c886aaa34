/** What a graph and the tree it denotes have in common: everything the validator looks at. */
module Denotation {
  import opened Wrappers
  import opened JsonPointer
  import opened JsonValues
  import opened References
  import opened StripUndefined
  import opened Validation

  /** Stepping through keys stays in step. */
  lemma {:induction false} StepAllAlike(g: Graph, id: nat, t: Tree, keys: seq<string>)
    requires Denotes(g, id, t)
    ensures match StepAll(ShapeOf, t, keys)
            case Ok(found) => StepAll(At(g), id, keys).Ok? && Denotes(g, StepAll(At(g), id, keys).value, found)
            case Err(why) => StepAll(At(g), id, keys) == Err(why)
    decreases |keys|
  {
    if keys != [] && t.shape.Object? {
      FindAlike(g, g[id].entries, t.shape.entries, keys[0]);
      if Has(t.shape.entries, keys[0]) {
        StepAllAlike(g, Find(g[id].entries, keys[0]).value, Find(t.shape.entries, keys[0]).value, keys[1..]);
      }
    }
  }

  lemma ResolveAlike(g: Graph, id: nat, t: Tree, ref: string)
    requires Denotes(g, id, t)
    ensures Resolve(At(g), id, ref).Ok? <==> Resolve(ShapeOf, t, ref).Ok?
  {
    if ParseReference(ref).Some? {
      StepAllAlike(g, id, t, ParseReference(ref).value);
    }
  }

  lemma RefAlike(g: Graph, id: nat, t: Tree)
    requires Denotes(g, id, t)
    ensures RefOf(At(g), g[id]) == RefOf(ShapeOf, t.shape)
  {
    PropAlike(g, g[id], t.shape, "$ref");
  }

  /** The parts of a tree, as the parts of a node. */
  function PartsOf(t: Tree): seq<Tree> {
    t.shape.Parts()
  }

  lemma PartsAlike(g: Graph, id: nat, t: Tree)
    requires Denotes(g, id, t)
    ensures |g[id].Parts()| == |PartsOf(t)|
    ensures forall i :: 0 <= i < |PartsOf(t)| ==> Denotes(g, g[id].Parts()[i], PartsOf(t)[i])
  {
  }

  lemma MentionsInParts(t: Tree, ref: string, i: nat)
    requires i < |PartsOf(t)| && Mentions(PartsOf(t)[i], ref)
    ensures Mentions(t, ref)
  {
  }

  /** Something the node reaches holds this `$ref` string. */
  ghost predicate RefersTo(g: Graph, from: nat, ref: string) {
    exists id :: Refers(g, from, id) && RefOf(At(g), g[id]) == Some(ref)
  }

  lemma ReferredThroughPart(g: Graph, id: nat, i: nat, ref: string)
    requires id in g && i < |g[id].Parts()| && RefersTo(g, g[id].Parts()[i], ref)
    ensures RefersTo(g, id, ref)
  {
    var part := g[id].Parts()[i];
    var to :| Refers(g, part, to) && RefOf(At(g), g[to]) == Some(ref);
    ReachesThrough(g, id, part, to);
    assert Refers(g, id, to);
  }

  lemma {:induction false} MentionedIsReferred(g: Graph, id: nat, t: Tree, ref: string)
    requires Denotes(g, id, t) && Mentions(t, ref)
    ensures RefersTo(g, id, ref)
    decreases t
  {
    RefAlike(g, id, t);
    if RefOf(ShapeOf, t.shape) == Some(ref) {
      ReachesSelf(g, id);
      assert Refers(g, id, id);
    } else {
      match t.shape
      case Array(items) =>
        var i :| 0 <= i < |items| && Mentions(items[i], ref);
        MentionedIsReferred(g, g[id].items[i], items[i], ref);
        ReferredThroughPart(g, id, i, ref);
      case Object(entries) =>
        var i :| 0 <= i < |entries| && Mentions(entries[i].1, ref);
        MentionedIsReferred(g, g[id].entries[i].1, entries[i].1, ref);
        ReferredThroughPart(g, id, i, ref);
      case _ =>
    }
  }

  lemma {:induction false} ReferredIsMentioned(g: Graph, path: seq<nat>, t: Tree, ref: string)
    requires IsPath(g, path) && Denotes(g, path[0], t)
    requires RefOf(At(g), g[path[|path| - 1]]) == Some(ref)
    ensures Mentions(t, ref)
    decreases |path|
  {
    if |path| == 1 {
      RefAlike(g, path[0], t);
    } else {
      PartsAlike(g, path[0], t);
      assert path[0 + 1] in g[path[0]].Parts();
      var i :| 0 <= i < |g[path[0]].Parts()| && g[path[0]].Parts()[i] == path[1];
      var rest := path[1..];
      forall j | 0 <= j < |rest| - 1
        ensures rest[j] in g && rest[j + 1] in g[rest[j]].Parts()
      {
        assert path[j + 1] in g && path[(j + 1) + 1] in g[path[j + 1]].Parts();
      }
      ReferredIsMentioned(g, rest, PartsOf(t)[i], ref);
      MentionsInParts(t, ref, i);
    }
  }

  /** The references a walk over the graph finds are those the tree mentions, however much is shared. */
  lemma RefersToIffMentions(g: Graph, id: nat, t: Tree, ref: string)
    requires Denotes(g, id, t)
    ensures RefersTo(g, id, ref) <==> Mentions(t, ref)
  {
    if Mentions(t, ref) {
      MentionedIsReferred(g, id, t, ref);
    }
    if RefersTo(g, id, ref) {
      var to :| Refers(g, id, to) && RefOf(At(g), g[to]) == Some(ref);
      var path :| IsPath(g, path) && path[0] == id && path[|path| - 1] == to;
      ReferredIsMentioned(g, path, t, ref);
    }
  }

  /** Every reference a tree mentions resolves within it. */
  ghost predicate ReferencesResolve(t: Tree) {
    forall ref :: Mentions(t, ref) ==> Resolve(ShapeOf, t, ref).Ok?
  }

  lemma BadReferenceMeans(g: Graph, id: nat, ref: string)
    ensures (exists why :: HasBadReference(g, id, ref, why)) <==> RefersTo(g, id, ref) && Resolve(At(g), id, ref).Err?
  {
    if RefersTo(g, id, ref) && Resolve(At(g), id, ref).Err? {
      var to :| Refers(g, id, to) && RefOf(At(g), g[to]) == Some(ref);
      assert BadReferenceAt(g, id, to, ref, Resolve(At(g), id, ref).error);
      assert HasBadReference(g, id, ref, Resolve(At(g), id, ref).error);
    }
  }

  lemma ReferencesAlike(g: Graph, id: nat, t: Tree)
    requires Denotes(g, id, t)
    ensures SoundReferences(g, id) <==> ReferencesResolve(t)
  {
    if SoundReferences(g, id) {
      forall ref | Mentions(t, ref)
        ensures Resolve(ShapeOf, t, ref).Ok?
      {
        BadReferenceMeans(g, id, ref);
        RefersToIffMentions(g, id, t, ref);
        ResolveAlike(g, id, t, ref);
      }
    }
    if ReferencesResolve(t) {
      forall ref, why
        ensures !HasBadReference(g, id, ref, why)
      {
        RefersToIffMentions(g, id, t, ref);
        ResolveAlike(g, id, t, ref);
      }
    }
  }

  // Structure.

  lemma PrimaryAlike(g: Graph, a: Shape<nat>, b: Shape<Tree>)
    requires Alike(g, a, b)
    ensures Primary(At(g), a).Some? <==> Primary(ShapeOf, b).Some?
    ensures Primary(ShapeOf, b).Some? ==> Alike(g, Primary(At(g), a).value, Primary(ShapeOf, b).value)
  {
    PropAlike(g, a, b, "200");
    PropAlike(g, a, b, "201");
    PropAlike(g, a, b, "202");
  }

  lemma ContentAlike(g: Graph, a: Shape<nat>, b: Shape<Tree>)
    requires Alike(g, a, b)
    ensures (Falsy(a) <==> Falsy(b)) && (a.Object? <==> b.Object?)
    ensures (Container(a) <==> Container(b)) && (LacksExample(a) <==> LacksExample(b))
  {
  }

  lemma JsonAlike(g: Graph, a: Shape<nat>, b: Shape<Tree>)
    requires Alike(g, a, b)
    ensures var x, y := Prop(At(g), a, "content"), Prop(ShapeOf, b, "content");
            var u, v := Prop(At(g), x, "application/json"), Prop(ShapeOf, y, "application/json");
            && (Falsy(x) <==> Falsy(y)) && (x.Object? <==> y.Object?)
            && (Falsy(u) <==> Falsy(v)) && (Container(u) <==> Container(v)) && (LacksExample(u) <==> LacksExample(v))
  {
    PropAlike(g, a, b, "content");
    var x, y := Prop(At(g), a, "content"), Prop(ShapeOf, b, "content");
    ContentAlike(g, x, y);
    PropAlike(g, x, y, "application/json");
    ContentAlike(g, Prop(At(g), x, "application/json"), Prop(ShapeOf, y, "application/json"));
  }

  lemma BodyAlike(g: Graph, a: Shape<nat>, b: Shape<Tree>, defect: Defect)
    requires Alike(g, a, b)
    requires defect.BodyNotAnObject? || defect.BodyContentNotAnObject? || defect.BodyJsonUnreadable?
          || defect.BodyWithoutExample?
    ensures HasDefect(At(g), a, defect) <==> HasDefect(ShapeOf, b, defect)
  {
    PropAlike(g, a, b, "requestBody");
    var x, y := Prop(At(g), a, "requestBody"), Prop(ShapeOf, b, "requestBody");
    ContentAlike(g, x, y);
    JsonAlike(g, x, y);
  }

  lemma ResponseAlike(g: Graph, a: Shape<nat>, b: Shape<Tree>, defect: Defect)
    requires Alike(g, a, b)
    requires defect.PrimaryNotAnObject? || defect.PrimaryContentNotAnObject? || defect.PrimaryJsonUnreadable?
          || defect.PrimaryWithoutExample?
    ensures HasDefect(At(g), a, defect) <==> HasDefect(ShapeOf, b, defect)
  {
    PropAlike(g, a, b, "responses");
    var xs, ys := Prop(At(g), a, "responses"), Prop(ShapeOf, b, "responses");
    PrimaryAlike(g, xs, ys);
    if Primary(ShapeOf, ys).Some? {
      var x, y := Primary(At(g), xs).value, Primary(ShapeOf, ys).value;
      ContentAlike(g, x, y);
      JsonAlike(g, x, y);
    }
  }

  lemma FieldAlike(g: Graph, a: Shape<nat>, b: Shape<Tree>, defect: Defect)
    requires Alike(g, a, b)
    requires defect.NotAnOperation? || defect.NoSummary? || defect.NoOperationId? || defect.NoTags?
    ensures HasDefect(At(g), a, defect) <==> HasDefect(ShapeOf, b, defect)
  {
    PropAlike(g, a, b, "summary");
    PropAlike(g, a, b, "operationId");
    PropAlike(g, a, b, "tags");
  }

  lemma PresenceAlike(g: Graph, a: Shape<nat>, b: Shape<Tree>, defect: Defect)
    requires Alike(g, a, b)
    requires defect.NoPermissions? || defect.NoResponses? || defect.ResponsesNotAnObject?
    ensures HasDefect(At(g), a, defect) <==> HasDefect(ShapeOf, b, defect)
  {
    PropAlike(g, a, b, "x-rentify-permissions");
    PropAlike(g, a, b, "responses");
  }

  lemma DefectAlike(g: Graph, a: Shape<nat>, b: Shape<Tree>, defect: Defect)
    requires Alike(g, a, b)
    ensures HasDefect(At(g), a, defect) <==> HasDefect(ShapeOf, b, defect)
  {
    if defect.NotAnOperation? || defect.NoSummary? || defect.NoOperationId? || defect.NoTags? {
      FieldAlike(g, a, b, defect);
    } else if defect.NoPermissions? || defect.NoResponses? || defect.ResponsesNotAnObject? {
      PresenceAlike(g, a, b, defect);
    } else if defect.PrimaryNotAnObject? || defect.PrimaryContentNotAnObject? || defect.PrimaryJsonUnreadable?
           || defect.PrimaryWithoutExample? {
      ResponseAlike(g, a, b, defect);
    } else {
      BodyAlike(g, a, b, defect);
    }
  }

  lemma OperationAtAlike(g: Graph, a: Shape<nat>, b: Shape<Tree>, path: string, verb: string)
    requires Alike(g, a, b)
    ensures OperationAt(At(g), a, path, verb).Some? <==> OperationAt(ShapeOf, b, path, verb).Some?
    ensures OperationAt(ShapeOf, b, path, verb).Some? ==>
              Alike(g, OperationAt(At(g), a, path, verb).value, OperationAt(ShapeOf, b, path, verb).value)
  {
    PropAlike(g, a, b, "paths");
    var xs, ys := Prop(At(g), a, "paths"), Prop(ShapeOf, b, "paths");
    PropAlike(g, xs, ys, path);
    PropAlike(g, Prop(At(g), xs, path), Prop(ShapeOf, ys, path), verb);
  }

  lemma FaultAlike(g: Graph, a: Shape<nat>, b: Shape<Tree>, fault: Fault)
    requires Alike(g, a, b)
    ensures HasFault(At(g), a, fault) <==> HasFault(ShapeOf, b, fault)
  {
    PropAlike(g, a, b, "openapi");
    PropAlike(g, a, b, "info");
    PropAlike(g, Prop(At(g), a, "info"), Prop(ShapeOf, b, "info"), "title");
    PropAlike(g, Prop(At(g), a, "info"), Prop(ShapeOf, b, "info"), "version");
    PropAlike(g, a, b, "paths");
    match fault
    case PathNotRooted(path) => PropAlike(g, Prop(At(g), a, "paths"), Prop(ShapeOf, b, "paths"), path);
    case PathItemNotAnObject(path) => PropAlike(g, Prop(At(g), a, "paths"), Prop(ShapeOf, b, "paths"), path);
    case AtOperation(path, verb, defect) =>
      OperationAtAlike(g, a, b, path, verb);
      if OperationAt(ShapeOf, b, path, verb).Some? {
        DefectAlike(g, OperationAt(At(g), a, path, verb).value, OperationAt(ShapeOf, b, path, verb).value, defect);
      }
    case _ =>
  }

  /** A document held as a graph has nothing wrong with it exactly when the tree it denotes has nothing wrong. */
  lemma SoundAlike(g: Graph, document: nat, t: Tree)
    requires Denotes(g, document, t)
    ensures Sound(g, document) <==> SoundStructure(ShapeOf, t.shape) && ReferencesResolve(t)
  {
    SoundMeans(g, document);
    ReferencesAlike(g, document, t);
    forall fault
      ensures HasFault(At(g), g[document], fault) <==> HasFault(ShapeOf, t.shape, fault)
    {
      FaultAlike(g, g[document], t.shape, fault);
    }
  }

  // Every tree is denoted by some graph.

  ghost predicate Extends(g: Graph, h: Graph) {
    forall id :: id in g ==> id in h && h[id] == g[id]
  }

  lemma {:induction false} DenotesStill(g: Graph, h: Graph, id: nat, t: Tree)
    requires Extends(g, h) && Denotes(g, id, t)
    ensures Denotes(h, id, t)
    decreases t
  {
    match t.shape
    case Array(items) =>
      forall i | 0 <= i < |items|
        ensures Denotes(h, h[id].items[i], items[i])
      {
        DenotesStill(g, h, g[id].items[i], items[i]);
      }
    case Object(entries) =>
      forall i | 0 <= i < |entries|
        ensures Denotes(h, h[id].entries[i].1, entries[i].1)
      {
        DenotesStill(g, h, g[id].entries[i].1, entries[i].1);
      }
    case _ =>
  }

  lemma {:induction false} FreshAbove(ids: set<nat>) returns (bound: nat)
    ensures forall id :: id in ids ==> id < bound
  {
    bound := 0;
    if id :| id in ids {
      var rest := FreshAbove(ids - {id});
      bound := if id < rest then rest else id + 1;
      assert forall other :: other in ids ==> other == id || other in ids - {id};
    }
  }

  lemma AddNode(g: Graph, shape: Shape<nat>) returns (h: Graph, id: nat)
    requires WellFormed(g)
    requires (forall part :: part in shape.Parts() ==> part in g) && (shape.Object? ==> DistinctKeys(shape.entries))
    ensures WellFormed(h) && Extends(g, h) && id in h && h[id] == shape
  {
    id := FreshAbove(g.Keys);
    h := g[id := shape];
  }

  /** Writing a tree into memory. */
  lemma {:induction false} Allocate(g: Graph, t: Tree) returns (h: Graph, id: nat)
    requires WellFormed(g) && Proper(t)
    ensures WellFormed(h) && Extends(g, h) && Denotes(h, id, t)
    decreases t, 0
  {
    match t.shape
    case Array(items) =>
      var mid, ids := AllocateAll(g, items);
      h, id := AddNode(mid, Array(ids));
      forall i | 0 <= i < |items|
        ensures Denotes(h, ids[i], items[i])
      {
        DenotesStill(mid, h, ids[i], items[i]);
      }
    case Object(entries) =>
      var mid, held := AllocateEntries(g, entries);
      h, id := AddNode(mid, Object(held));
      forall i | 0 <= i < |entries|
        ensures Denotes(h, held[i].1, entries[i].1)
      {
        DenotesStill(mid, h, held[i].1, entries[i].1);
      }
    case Undefined => h, id := AddNode(g, Undefined);
    case Null => h, id := AddNode(g, Null);
    case Bool(b) => h, id := AddNode(g, Bool(b));
    case Number(n) => h, id := AddNode(g, Number(n));
    case String(s) => h, id := AddNode(g, String(s));
  }

  lemma {:induction false} AllocateAll(g: Graph, ts: seq<Tree>) returns (h: Graph, ids: seq<nat>)
    requires WellFormed(g) && forall i :: 0 <= i < |ts| ==> Proper(ts[i])
    ensures WellFormed(h) && Extends(g, h) && |ids| == |ts|
    ensures forall i :: 0 <= i < |ts| ==> Denotes(h, ids[i], ts[i])
    decreases ts, 1
  {
    if ts == [] {
      h, ids := g, [];
    } else {
      var mid, id := Allocate(g, ts[0]);
      var rest;
      h, rest := AllocateAll(mid, ts[1..]);
      ids := [id] + rest;
      DenotesStill(mid, h, id, ts[0]);
    }
  }

  lemma {:induction false} AllocateEntries(g: Graph, entries: seq<(string, Tree)>)
    returns (h: Graph, held: seq<(string, nat)>)
    requires WellFormed(g) && forall i :: 0 <= i < |entries| ==> Proper(entries[i].1)
    ensures WellFormed(h) && Extends(g, h) && |held| == |entries|
    ensures forall i :: 0 <= i < |entries| ==> held[i].0 == entries[i].0 && Denotes(h, held[i].1, entries[i].1)
    decreases entries, 1
  {
    if entries == [] {
      h, held := g, [];
    } else {
      var first := entries[0];
      assert first.1 < first;
      var mid, id := Allocate(g, first.1);
      var rest;
      h, rest := AllocateEntries(mid, entries[1..]);
      held := [(first.0, id)] + rest;
      DenotesStill(mid, h, id, first.1);
    }
  }
}
