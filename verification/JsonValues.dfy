/**
 * JavaScript values as documents are made of them. A shape is one level of a
 * value; what its parts are depends on how values are held. In a graph a value
 * is a node number, so that objects may be shared or contain themselves; a tree
 * is a value written out in full.
 */
module JsonValues {
  import opened Wrappers

  datatype Shape<V> =
    | Undefined
    | Null
    | Bool(b: bool)
    | Number(n: real)
    | String(s: string)
    | Array(items: seq<V>)
    | Object(entries: seq<(string, V)>)
  {
    predicate Truthy() {
      match this
      case Undefined => false
      case Null => false
      case Bool(b) => b
      case Number(n) => n != 0.0
      case String(s) => s != ""
      case Array(_) => true
      case Object(_) => true
    }

    /** The values held directly by an array or an object, in order. */
    function Parts(): seq<V> {
      match this
      case Array(items) => items
      case Object(entries) => seq(|entries|, i requires 0 <= i < |entries| => entries[i].1)
      case _ => []
    }
  }

  /** The values that count as false; everything else is truthy. */
  ghost predicate Falsy<V>(shape: Shape<V>) {
    shape == Undefined || shape == Null || shape == Bool(false) || shape == Number(0.0) || shape == String("")
  }

  lemma TruthyIff<V>(shape: Shape<V>)
    ensures shape.Truthy() <==> !Falsy(shape)
  {
  }

  /** The array or the object holds this value at place `i`. */
  ghost predicate HeldAt<V>(shape: Shape<V>, i: nat, value: V) {
    || (shape.Array? && i < |shape.items| && shape.items[i] == value)
    || (shape.Object? && i < |shape.entries| && shape.entries[i].1 == value)
  }

  lemma PartsAreHeld<V>(shape: Shape<V>, i: nat, value: V)
    ensures i < |shape.Parts()| && shape.Parts()[i] == value <==> HeldAt(shape, i, value)
  {
  }

  function Find<V>(entries: seq<(string, V)>, key: string): Option<V> {
    if entries == [] then None
    else if entries[0].0 == key then Some(entries[0].1)
    else Find(entries[1..], key)
  }

  lemma FindCons<V>(entry: (string, V), rest: seq<(string, V)>, key: string)
    ensures Find([entry] + rest, key) == if entry.0 == key then Some(entry.1) else Find(rest, key)
  {
  }

  predicate Has<V>(entries: seq<(string, V)>, key: string) {
    Find(entries, key).Some?
  }

  ghost predicate DistinctKeys<V>(entries: seq<(string, V)>) {
    forall i, j :: 0 <= i < j < |entries| ==> entries[i].0 != entries[j].0
  }

  lemma {:induction false} FindAt<V>(entries: seq<(string, V)>, i: nat)
    requires i < |entries| && DistinctKeys(entries)
    ensures Find(entries, entries[i].0) == Some(entries[i].1)
  {
    if i > 0 {
      FindAt(entries[1..], i - 1);
    }
  }

  lemma {:induction false} FindSome<V>(entries: seq<(string, V)>, key: string) returns (i: nat)
    requires Has(entries, key)
    ensures i < |entries| && entries[i] == (key, Find(entries, key).value)
  {
    if entries[0].0 == key {
      i := 0;
    } else {
      i := FindSome(entries[1..], key);
      i := i + 1;
    }
  }

  lemma {:induction false} FindNone<V>(entries: seq<(string, V)>, key: string)
    ensures Has(entries, key) <==> exists i :: 0 <= i < |entries| && entries[i].0 == key
  {
    if Has(entries, key) {
      var i := FindSome(entries, key);
    } else if entries != [] {
      FindNone(entries[1..], key);
      assert forall i :: 0 < i < |entries| ==> entries[i] == entries[1..][i - 1];
    }
  }

  /** Reading a property: undefined on anything but an object that has it. */
  function Prop<V>(view: V -> Shape<V>, of: Shape<V>, key: string): Shape<V> {
    if of.Object? then
      match Find(of.entries, key)
      case Some(v) => view(v)
      case None => Undefined
    else Undefined
  }

  // Graphs.

  type Graph = map<nat, Shape<nat>>

  function At(g: Graph): nat -> Shape<nat> {
    (id: nat) => if id in g then g[id] else Undefined
  }

  /** Every part is a node, and an object has each key once. */
  ghost predicate WellFormed(g: Graph) {
    forall id :: id in g ==>
      && (forall part :: part in g[id].Parts() ==> part in g)
      && (g[id].Object? ==> DistinctKeys(g[id].entries))
  }

  /** A walk from node to part. */
  ghost predicate IsPath(g: Graph, path: seq<nat>) {
    && path != []
    && (forall i :: 0 <= i < |path| ==> path[i] in g)
    && (forall i :: 0 <= i < |path| - 1 ==> path[i + 1] in g[path[i]].Parts())
  }

  ghost predicate Reaches(g: Graph, from: nat, to: nat) {
    exists path :: IsPath(g, path) && path[0] == from && path[|path| - 1] == to
  }

  lemma ReachesSelf(g: Graph, id: nat)
    requires id in g
    ensures Reaches(g, id, id)
  {
    assert IsPath(g, [id]);
  }

  lemma ReachesThrough(g: Graph, from: nat, part: nat, to: nat)
    requires from in g && part in g[from].Parts() && Reaches(g, part, to)
    ensures Reaches(g, from, to)
  {
    var path :| IsPath(g, path) && path[0] == part && path[|path| - 1] == to;
    var longer := [from] + path;
    forall i | 0 <= i < |longer| - 1
      ensures longer[i] in g && longer[i + 1] in g[longer[i]].Parts()
    {
      if i > 0 {
        assert path[i - 1 + 1] in g[path[i - 1]].Parts();
      }
    }
    assert IsPath(g, longer);
  }

  lemma ReachesThenPart(g: Graph, from: nat, id: nat, part: nat)
    requires Reaches(g, from, id) && part in g && id in g && part in g[id].Parts()
    ensures Reaches(g, from, part)
  {
    var path :| IsPath(g, path) && path[0] == from && path[|path| - 1] == id;
    assert IsPath(g, path + [part]);
  }

  lemma {:induction false} ClosedHoldsPath(g: Graph, s: set<nat>, path: seq<nat>, i: nat)
    requires forall id :: id in s && id in g ==> forall part :: part in g[id].Parts() ==> part in s
    requires IsPath(g, path) && path[0] in s && i < |path|
    ensures path[i] in s
  {
    if i > 0 {
      ClosedHoldsPath(g, s, path, i - 1);
      assert path[i - 1 + 1] in g[path[i - 1]].Parts();
    }
  }

  /** A set closed under parts holds everything its members reach. */
  lemma ClosedHoldsReachable(g: Graph, s: set<nat>, from: nat, to: nat)
    requires forall id :: id in s && id in g ==> forall part :: part in g[id].Parts() ==> part in s
    requires from in s && Reaches(g, from, to)
    ensures to in s
  {
    var path :| IsPath(g, path) && path[0] == from && path[|path| - 1] == to;
    ClosedHoldsPath(g, s, path, |path| - 1);
  }

  // Trees.

  datatype Tree = Tree(shape: Shape<Tree>)

  function ShapeOf(t: Tree): Shape<Tree> {
    t.shape
  }

  /** The value at a node of the graph is this tree, whatever it shares. */
  ghost predicate Denotes(g: Graph, id: nat, t: Tree)
    decreases t
  {
    id in g && Alike(g, g[id], t.shape)
  }

  ghost predicate Alike(g: Graph, a: Shape<nat>, b: Shape<Tree>)
    decreases b
  {
    match b
    case Undefined => a == Undefined
    case Null => a == Null
    case Bool(x) => a == Bool(x)
    case Number(n) => a == Number(n)
    case String(s) => a == String(s)
    case Array(items) =>
      && a.Array? && |a.items| == |items|
      && forall i :: 0 <= i < |items| ==> Denotes(g, a.items[i], items[i])
    case Object(entries) =>
      && a.Object? && |a.entries| == |entries|
      && forall i :: 0 <= i < |entries| ==> a.entries[i].0 == entries[i].0 && Denotes(g, a.entries[i].1, entries[i].1)
  }

  lemma DenotesObject(g: Graph, id: nat, t: Tree)
    requires Denotes(g, id, t)
    ensures id in g && Alike(g, g[id], t.shape) && (g[id].Object? <==> t.shape.Object?)
  {
  }

  lemma {:induction false} FindAlike(g: Graph, a: seq<(string, nat)>, b: seq<(string, Tree)>, key: string)
    requires |a| == |b| && forall i :: 0 <= i < |b| ==> a[i].0 == b[i].0 && Denotes(g, a[i].1, b[i].1)
    ensures Has(a, key) <==> Has(b, key)
    ensures Has(b, key) ==> Denotes(g, Find(a, key).value, Find(b, key).value)
  {
    if b != [] && b[0].0 != key {
      FindAlike(g, a[1..], b[1..], key);
    }
  }

  /** Reading a property of a graph and of the tree it denotes gives the same. */
  lemma PropAlike(g: Graph, a: Shape<nat>, b: Shape<Tree>, key: string)
    requires Alike(g, a, b)
    ensures Alike(g, Prop(At(g), a, key), Prop(ShapeOf, b, key))
    ensures a.Object? <==> b.Object?
    ensures b.Object? ==> (Has(a.entries, key) <==> Has(b.entries, key))
  {
    if b.Object? {
      FindAlike(g, a.entries, b.entries, key);
    }
  }
}
