/**
 * Following the references of a document: `resolveReference` and
 * `walkReferences` of the OpenAPI validator.
 */
module References {
  import opened Wrappers
  import opened JsonPointer
  import opened JsonValues

  datatype Unresolved = External | NotAnObject | Missing

  /** Steps through a document key by key. */
  function StepAll<V>(view: V -> Shape<V>, from: V, keys: seq<string>): Result<V, Unresolved> {
    if keys == [] then Ok(from)
    else if !view(from).Object? then Err(NotAnObject)
    else
      match Find(view(from).entries, keys[0])
      case None => Err(Missing)
      case Some(next) => StepAll(view, next, keys[1..])
  }

  lemma StepCons<V>(view: V -> Shape<V>, from: V, key: string, keys: seq<string>)
    ensures StepAll(view, from, [key] + keys)
         == if !view(from).Object? then Err(NotAnObject)
            else
              match Find(view(from).entries, key)
              case None => Err(Missing)
              case Some(next) => StepAll(view, next, keys)
  {
  }

  function Resolve<V>(view: V -> Shape<V>, document: V, ref: string): Result<V, Unresolved> {
    match ParseReference(ref)
    case None => Err(External)
    case Some(keys) => StepAll(view, document, keys)
  }

  /** Resolving a printed reference is stepping through its keys, whatever characters they hold. */
  lemma ResolveBuilt<V>(view: V -> Shape<V>, document: V, pointer: seq<string>)
    ensures Resolve(view, document, BuildReference(pointer))
         == StepAll(view, document, if pointer == [] then [""] else pointer)
  {
    ParseBuild(pointer);
  }

  method ResolveReference(g: Graph, document: nat, ref: string) returns (r: Result<nat, Unresolved>)
    ensures r == Resolve(At(g), document, ref)
  {
    if !(|ref| >= 2 && ref[..2] == "#/") {
      return Err(External);
    }
    var segments := Split(ref[2..]);
    var current := document;
    for i := 0 to |segments|
      invariant UnescapeEach(segments[i..]) == UnescapeEach(segments)[i..]
      invariant Resolve(At(g), document, ref) == StepAll(At(g), current, UnescapeEach(segments[i..]))
    {
      var key := Unescape(segments[i]);
      assert segments[i..][1..] == segments[i + 1..];
      if !At(g)(current).Object? {
        return Err(NotAnObject);
      }
      match Find(At(g)(current).entries, key) {
        case None => return Err(Missing);
        case Some(next) => current := next;
      }
    }
    r := Ok(current);
  }

  /** The `$ref` string of an object, if it has one. */
  function RefOf<V>(view: V -> Shape<V>, shape: Shape<V>): Option<string> {
    match Prop(view, shape, "$ref")
    case String(s) => Some(s)
    case _ => None
  }

  predicate Container<V>(shape: Shape<V>) {
    shape.Array? || shape.Object?
  }

  /** The objects a walk from `root` must visit: those it reaches that hold a `$ref` string. */
  ghost predicate Refers(g: Graph, root: nat, id: nat) {
    Reaches(g, root, id) && id in g && RefOf(At(g), g[id]).Some?
  }

  // The order of a walk.

  ghost function Elements(ids: seq<nat>): set<nat> {
    set id | id in ids
  }

  /**
   * The arrays and objects a walk through these values sees for the first time,
   * in depth-first order: each before what it holds, and that from the left.
   */
  ghost function Preorder(g: Graph, values: seq<nat>, seen: set<nat>): seq<nat>
    decreases g.Keys - seen, |values|
  {
    if values == [] then []
    else
      var node := values[0];
      var first :=
        if Container(At(g)(node)) && node !in seen
        then [node] + Preorder(g, At(g)(node).Parts(), seen + {node})
        else [];
      assert g.Keys - (seen + Elements(first)) == g.Keys - seen || g.Keys - (seen + Elements(first)) < g.Keys - seen;
      first + Preorder(g, values[1..], seen + Elements(first))
  }

  ghost function WalkOrder(g: Graph, root: nat): seq<nat> {
    Preorder(g, [root], {})
  }

  lemma PreorderOne(g: Graph, node: nat, seen: set<nat>)
    ensures Preorder(g, [node], seen)
         == if Container(At(g)(node)) && node !in seen
            then [node] + Preorder(g, At(g)(node).Parts(), seen + {node})
            else []
  {
  }

  lemma PreorderNext(g: Graph, values: seq<nat>, seen: set<nat>)
    requires values != []
    ensures var first := Preorder(g, [values[0]], seen);
            Preorder(g, values, seen) == first + Preorder(g, values[1..], seen + Elements(first))
  {
    PreorderOne(g, values[0], seen);
  }

  ghost predicate Distinct(ids: seq<nat>) {
    forall i, j :: 0 <= i < j < |ids| ==> ids[i] != ids[j]
  }

  ghost predicate AllSeen(g: Graph, parts: seq<nat>, seen: set<nat>) {
    forall part :: part in parts && part in g && Container(g[part]) ==> part in seen
  }

  /** What became seen since `before` has all its parts seen. */
  ghost predicate PartsSeen(g: Graph, before: set<nat>, seen: set<nat>) {
    forall id :: id in seen && id in g && id !in before ==> AllSeen(g, g[id].Parts(), seen)
  }

  /** These were not seen before, and each of them is seen once. */
  ghost predicate NewlySeen(g: Graph, before: set<nat>, ids: seq<nat>) {
    Distinct(ids) && forall id :: id in ids ==> id !in before && id in g && Container(g[id])
  }

  lemma NewlySeenTogether(g: Graph, before: set<nat>, a: seq<nat>, b: seq<nat>)
    requires NewlySeen(g, before, a) && NewlySeen(g, before + Elements(a), b)
    ensures NewlySeen(g, before, a + b) && before + Elements(a + b) == before + Elements(a) + Elements(b)
  {
    forall i, j | 0 <= i < j < |a + b|
      ensures (a + b)[i] != (a + b)[j]
    {
      if i < |a| <= j {
        assert (a + b)[i] in a && (a + b)[j] in b;
      }
    }
  }

  lemma PartsSeenTogether(g: Graph, before: set<nat>, middle: set<nat>, seen: set<nat>)
    requires middle <= seen && PartsSeen(g, before, middle) && PartsSeen(g, middle, seen)
    ensures PartsSeen(g, before, seen)
  {
  }

  /** A walk sees nothing twice, and ends only when everything held by what it saw is seen. */
  lemma {:induction false} PreorderSees(g: Graph, values: seq<nat>, seen: set<nat>)
    ensures var order := Preorder(g, values, seen);
            && NewlySeen(g, seen, order)
            && AllSeen(g, values, seen + Elements(order)) && PartsSeen(g, seen, seen + Elements(order))
    decreases g.Keys - seen, |values|
  {
    if values != [] {
      PreorderNext(g, values, seen);
      PreorderOne(g, values[0], seen);
      var node, first := values[0], Preorder(g, [values[0]], seen);
      var middle := seen + Elements(first);
      if first != [] {
        var parts, inner := At(g)(node).Parts(), Preorder(g, At(g)(node).Parts(), seen + {node});
        PreorderSees(g, parts, seen + {node});
        assert Elements([node]) == {node};
        NewlySeenTogether(g, seen, [node], inner);
        assert AllSeen(g, g[node].Parts(), middle) && PartsSeen(g, seen + {node}, middle);
      }
      assert NewlySeen(g, seen, first) && PartsSeen(g, seen, middle) && AllSeen(g, [node], middle);
      assert g.Keys - middle == g.Keys - seen || g.Keys - middle < g.Keys - seen;
      PreorderSees(g, values[1..], middle);
      var rest := Preorder(g, values[1..], middle);
      NewlySeenTogether(g, seen, first, rest);
      PartsSeenTogether(g, seen, middle, middle + Elements(rest));
      assert forall part :: part in values ==> part == node || part in values[1..];
    }
  }

  /** What stands at place `i` is one of the values, or a part of something seen earlier. */
  ghost predicate HeldEarlier(g: Graph, values: seq<nat>, order: seq<nat>, i: nat)
    requires i < |order|
  {
    order[i] in values || exists j :: 0 <= j < i && order[i] in At(g)(order[j]).Parts()
  }

  ghost predicate Follows(g: Graph, values: seq<nat>, order: seq<nat>) {
    forall i :: 0 <= i < |order| ==> HeldEarlier(g, values, order, i)
  }

  lemma FollowsTogether(g: Graph, values: seq<nat>, a: seq<nat>, b: seq<nat>)
    requires Follows(g, values, a) && Follows(g, values, b)
    ensures Follows(g, values, a + b)
  {
    forall i | 0 <= i < |a + b|
      ensures HeldEarlier(g, values, a + b, i)
    {
      if i < |a| {
        assert HeldEarlier(g, values, a, i) && forall j :: 0 <= j < i ==> (a + b)[j] == a[j];
      } else {
        assert HeldEarlier(g, values, b, i - |a|);
        if b[i - |a|] !in values {
          var j :| 0 <= j < i - |a| && b[i - |a|] in At(g)(b[j]).Parts();
          assert (a + b)[j + |a|] == b[j];
        }
      }
    }
  }

  lemma FollowsNode(g: Graph, node: nat, values: seq<nat>, inner: seq<nat>)
    requires node in values && Follows(g, At(g)(node).Parts(), inner)
    ensures Follows(g, values, [node] + inner)
  {
    var order := [node] + inner;
    forall i | 0 <= i < |order|
      ensures HeldEarlier(g, values, order, i)
    {
      if i > 0 {
        assert HeldEarlier(g, At(g)(node).Parts(), inner, i - 1) && order[0] == node;
        if inner[i - 1] !in At(g)(node).Parts() {
          var j :| 0 <= j < i - 1 && inner[i - 1] in At(g)(inner[j]).Parts();
          assert order[j + 1] == inner[j];
        }
      }
    }
  }

  lemma FollowsMore(g: Graph, fewer: seq<nat>, values: seq<nat>, order: seq<nat>)
    requires Follows(g, fewer, order) && forall id :: id in fewer ==> id in values
    ensures Follows(g, values, order)
  {
    forall i | 0 <= i < |order|
      ensures HeldEarlier(g, values, order, i)
    {
      assert HeldEarlier(g, fewer, order, i);
    }
  }

  /** Everything a walk sees is one of the values, or a part of something seen earlier. */
  lemma {:induction false} PreorderFollows(g: Graph, values: seq<nat>, seen: set<nat>)
    ensures Follows(g, values, Preorder(g, values, seen))
    decreases g.Keys - seen, |values|
  {
    if values != [] {
      PreorderNext(g, values, seen);
      PreorderOne(g, values[0], seen);
      var node, first := values[0], Preorder(g, [values[0]], seen);
      var middle := seen + Elements(first);
      if first != [] {
        PreorderFollows(g, At(g)(node).Parts(), seen + {node});
        FollowsNode(g, node, values, Preorder(g, At(g)(node).Parts(), seen + {node}));
      }
      assert g.Keys - middle == g.Keys - seen || g.Keys - middle < g.Keys - seen;
      PreorderFollows(g, values[1..], middle);
      FollowsMore(g, values[1..], values, Preorder(g, values[1..], middle));
      FollowsTogether(g, values, first, Preorder(g, values[1..], middle));
    }
  }

  lemma {:induction false} WalkOrderReached(g: Graph, root: nat, i: nat)
    requires root in g && i < |WalkOrder(g, root)|
    ensures Reaches(g, root, WalkOrder(g, root)[i])
    decreases i
  {
    var order := WalkOrder(g, root);
    PreorderFollows(g, [root], {});
    assert HeldEarlier(g, [root], order, i);
    PreorderSees(g, [root], {});
    if order[i] == root {
      ReachesSelf(g, root);
    } else {
      var j :| 0 <= j < i && order[i] in At(g)(order[j]).Parts();
      WalkOrderReached(g, root, j);
      assert order[i] in order && order[j] in order;
      ReachesThenPart(g, root, order[j], order[i]);
    }
  }

  /** A walk sees exactly the arrays and objects the root reaches, each once. */
  lemma WalkOrderMeans(g: Graph, root: nat)
    requires WellFormed(g) && root in g
    ensures Distinct(WalkOrder(g, root))
    ensures forall id :: id in WalkOrder(g, root) <==>
              Reaches(g, root, id) && id in g && (g[id].Array? || g[id].Object?)
  {
    var order := WalkOrder(g, root);
    PreorderSees(g, [root], {});
    var finished := set id | id in g && (id in order || !Container(g[id]));
    assert {} + Elements(order) == Elements(order);
    assert root in [root];
    forall id | id in finished && id in g
      ensures forall part :: part in g[id].Parts() ==> part in finished
    {
      assert id in order ==> AllSeen(g, g[id].Parts(), Elements(order));
    }
    forall id
      ensures id in order <==> Reaches(g, root, id) && id in g && Container(g[id])
    {
      if id in order {
        var i :| 0 <= i < |order| && order[i] == id;
        WalkOrderReached(g, root, i);
      } else if Reaches(g, root, id) {
        ClosedHoldsReachable(g, finished, root, id);
      }
    }
  }

  // Which of two values a walk sees first.

  ghost predicate Before(order: seq<nat>, x: nat, y: nat) {
    exists p, q :: 0 <= p < q < |order| && order[p] == x && order[q] == y
  }

  lemma BeforeFrom(a: seq<nat>, b: seq<nat>, x: nat, y: nat)
    requires x in a && y !in a && y in a + b
    ensures Before(a + b, x, y)
  {
    var p :| 0 <= p < |a| && a[p] == x;
    var q :| 0 <= q < |a + b| && (a + b)[q] == y;
    assert (a + b)[p] == x && forall k :: 0 <= k < |a| ==> (a + b)[k] == a[k];
  }

  lemma ElementsConcat(a: seq<nat>, b: seq<nat>)
    ensures Elements(a + b) == Elements(a) + Elements(b)
  {
  }

  lemma Associate(a: seq<nat>, b: seq<nat>, c: seq<nat>)
    ensures a + b + c == a + (b + c)
  {
  }

  lemma SeenTogether(seen: set<nat>, a: seq<nat>, b: seq<nat>)
    ensures seen + Elements(a + b) == seen + Elements(a) + Elements(b)
  {
    ElementsConcat(a, b);
  }

  /** The walk through some values, and then through others. */
  lemma {:induction false} PreorderConcat(g: Graph, a: seq<nat>, b: seq<nat>, seen: set<nat>)
    ensures Preorder(g, a + b, seen)
         == Preorder(g, a, seen) + Preorder(g, b, seen + Elements(Preorder(g, a, seen)))
    decreases |a|
  {
    if a == [] {
      assert seen + Elements([]) == seen && a + b == b;
    } else {
      var first := Preorder(g, [a[0]], seen);
      var middle := seen + Elements(first);
      var rest := Preorder(g, a[1..], middle);
      assert (a + b)[0] == a[0] && (a + b)[1..] == a[1..] + b;
      PreorderNext(g, a + b, seen);
      PreorderNext(g, a, seen);
      PreorderConcat(g, a[1..], b, middle);
      SeenTogether(seen, first, rest);
      Associate(first, rest, Preorder(g, b, middle + Elements(rest)));
    }
  }

  /** What was seen before a node, then what is seen through it, and what after. */
  ghost predicate SplitAt(g: Graph, order: seq<nat>, seen: set<nat>, node: nat, before: seq<nat>, after: seq<nat>) {
    && order == before + Preorder(g, [node], seen + Elements(before)) + after
    && node !in seen && node !in before && Container(At(g)(node))
  }

  lemma SplitLater(
    g: Graph, first: seq<nat>, rest: seq<nat>, seen: set<nat>, node: nat, before: seq<nat>, after: seq<nat>)
    requires node !in first && SplitAt(g, rest, seen + Elements(first), node, before, after)
    ensures SplitAt(g, first + rest, seen, node, first + before, after)
  {
    SeenTogether(seen, first, before);
    Associate(first, before, Preorder(g, [node], seen + Elements(first + before)));
    Associate(first, before + Preorder(g, [node], seen + Elements(first + before)), after);
  }

  lemma SplitMore(
    g: Graph, order: seq<nat>, more: seq<nat>, seen: set<nat>, node: nat, before: seq<nat>, after: seq<nat>)
    requires SplitAt(g, order, seen, node, before, after)
    ensures SplitAt(g, order + more, seen, node, before, after + more)
  {
    Associate(before + Preorder(g, [node], seen + Elements(before)), after, more);
  }

  lemma SplitHead(g: Graph, head: nat, seen: set<nat>)
    requires head !in seen && Container(At(g)(head))
    ensures SplitAt(g, Preorder(g, [head], seen), seen, head, [], [])
  {
    assert seen + Elements([]) == seen;
  }

  lemma SplitInner(g: Graph, head: nat, seen: set<nat>, node: nat, before: seq<nat>, after: seq<nat>)
    requires head !in seen && Container(At(g)(head)) && node != head
    requires SplitAt(g, Preorder(g, At(g)(head).Parts(), seen + {head}), seen + {head}, node, before, after)
    ensures SplitAt(g, Preorder(g, [head], seen), seen, node, [head] + before, after)
  {
    assert Elements([head]) == {head};
    SplitLater(g, [head], Preorder(g, At(g)(head).Parts(), seen + {head}), seen, node, before, after);
    PreorderOne(g, head, seen);
  }

  lemma {:induction false} PreorderVisit(g: Graph, values: seq<nat>, seen: set<nat>, node: nat)
    returns (before: seq<nat>, after: seq<nat>)
    requires node in Preorder(g, values, seen)
    ensures SplitAt(g, Preorder(g, values, seen), seen, node, before, after)
    decreases g.Keys - seen, |values|
  {
    PreorderNext(g, values, seen);
    PreorderOne(g, values[0], seen);
    var head, first := values[0], Preorder(g, [values[0]], seen);
    var middle := seen + Elements(first);
    var rest := Preorder(g, values[1..], middle);
    if node !in first {
      assert g.Keys - middle == g.Keys - seen || g.Keys - middle < g.Keys - seen;
      before, after := PreorderVisit(g, values[1..], middle, node);
      SplitLater(g, first, rest, seen, node, before, after);
      before := first + before;
    } else {
      if node == head {
        before, after := [], [];
        SplitHead(g, head, seen);
      } else {
        before, after := PreorderVisit(g, At(g)(head).Parts(), seen + {head}, node);
        SplitInner(g, head, seen, node, before, after);
        before := [head] + before;
      }
      SplitMore(g, first, rest, seen, node, before, after);
      after := after + rest;
    }
  }

  /** Nothing but this node holds this value, and it does so at this place alone. */
  ghost predicate HeldOnlyAt(g: Graph, node: nat, j: nat, value: nat) {
    && (node in g && HeldAt(g[node], j, value))
    && (forall m, k: nat :: m in g && HeldAt(g[m], k, value) ==> m == node && k == j)
  }

  lemma HeldOnlyInParts(g: Graph, node: nat, j: nat, value: nat)
    requires HeldOnlyAt(g, node, j, value)
    ensures j < |g[node].Parts()| && g[node].Parts()[j] == value && value !in g[node].Parts()[..j]
    ensures forall m :: m in g && value in g[m].Parts() ==> m == node
  {
    PartsAreHeld(g[node], j, value);
    forall m, k: nat | m in g && k < |g[m].Parts()| && g[m].Parts()[k] == value
      ensures m == node && k == j
    {
      PartsAreHeld(g[m], k, value);
    }
  }

  lemma JoinRest(a: seq<nat>, b: seq<nat>, c: seq<nat>, d: seq<nat>, e: seq<nat>)
    ensures a + b + c + d + e == a + b + (c + d + e)
  {
  }

  lemma JoinPlaces(a: seq<nat>, b: seq<nat>, c: seq<nat>, d: seq<nat>, e: seq<nat>)
    ensures a + (b + (c + d)) + e == a + b + c + d + e
  {
  }

  /** What a walk sees through a node from place `j` on. */
  ghost function PlacesFrom(g: Graph, node: nat, j: nat, before: seq<nat>): seq<nat>
    requires node in g && j <= |g[node].Parts()|
  {
    var seen := Elements(before) + {node};
    Preorder(g, g[node].Parts()[j..], seen + Elements(Preorder(g, g[node].Parts()[..j], seen)))
  }

  lemma PreorderSplit(g: Graph, values: seq<nat>, j: nat, seen: set<nat>)
    requires j <= |values|
    ensures var left := Preorder(g, values[..j], seen);
            Preorder(g, values, seen) == left + Preorder(g, values[j..], seen + Elements(left))
  {
    PreorderConcat(g, values[..j], values[j..], seen);
    assert values[..j] + values[j..] == values;
  }

  lemma NodePlaces(g: Graph, node: nat, j: nat, before: seq<nat>)
    requires node in g && j <= |g[node].Parts()| && node !in before && Container(g[node])
    ensures Preorder(g, [node], Elements(before))
         == [node] + (Preorder(g, g[node].Parts()[..j], Elements(before) + {node}) + PlacesFrom(g, node, j, before))
  {
    PreorderOne(g, node, Elements(before));
    PreorderSplit(g, g[node].Parts(), j, Elements(before) + {node});
  }

  /** A walk sees the node, then what it sees through the places before `j`, then the rest. */
  lemma PlacesInOrder(g: Graph, order: seq<nat>, node: nat, j: nat, before: seq<nat>, after: seq<nat>)
    requires node in g && j <= |g[node].Parts()| && SplitAt(g, order, {}, node, before, after)
    ensures order == before + [node] + Preorder(g, g[node].Parts()[..j], Elements(before) + {node})
                     + PlacesFrom(g, node, j, before) + after
  {
    var left := Preorder(g, g[node].Parts()[..j], Elements(before) + {node});
    NodePlaces(g, node, j, before);
    assert {} + Elements(before) == Elements(before);
    JoinPlaces(before, [node], left, PlacesFrom(g, node, j, before), after);
  }

  /** Where only one node holds a value, a walk that has not seen that node has not seen the value. */
  lemma HolderFirst(g: Graph, values: seq<nat>, order: seq<nat>, node: nat, j: nat, y: nat, q: nat)
    requires Follows(g, values, order) && HeldOnlyAt(g, node, j, y) && y !in values
    requires q < |order| && order[q] == y
    ensures node in order[..q]
  {
    assert HeldEarlier(g, values, order, q);
    var p :| 0 <= p < q && y in At(g)(order[p]).Parts();
    HeldOnlyInParts(g, node, j, y);
    assert order[..q][p] == node;
  }

  lemma NotSeenYet(g: Graph, root: nat, before: seq<nat>, rest: seq<nat>, node: nat, j: nat, y: nat)
    requires Follows(g, [root], before + [node] + rest) && node !in before
    requires HeldOnlyAt(g, node, j, y) && y != root
    ensures y !in before + [node]
  {
    var order := before + [node] + rest;
    assert order[|before|] == node && forall q :: 0 <= q < |before| ==> order[q] == before[q];
    forall q | 0 <= q <= |before|
      ensures order[q] != y
    {
      if order[q] == y {
        HolderFirst(g, [root], order, node, j, y, q);
      }
    }
  }

  /** What is seen up to place `j` of a node holds the earlier value, and not the one held there alone. */
  lemma SeenUpToPlace(g: Graph, root: nat, before: seq<nat>, rest: seq<nat>, node: nat, i: nat, j: nat, x: nat, y: nat)
    requires node in g && i < j && HeldAt(g[node], i, x) && HeldOnlyAt(g, node, j, y) && y != root
    requires x in g && Container(g[x])
    requires Follows(g, [root], before + [node] + rest) && node !in before
    ensures var seen := Elements(before) + {node};
            var left := before + [node] + Preorder(g, g[node].Parts()[..j], seen);
            x in left && y !in left
  {
    var seen, parts := Elements(before) + {node}, g[node].Parts();
    var inner := Preorder(g, parts[..j], seen);
    HeldOnlyInParts(g, node, j, y);
    PartsAreHeld(g[node], i, x);
    PreorderSees(g, parts[..j], seen);
    assert parts[..j][i] == x;
    NotSeenYet(g, root, before, rest, node, j, y);
    PreorderFollows(g, parts[..j], seen);
    if q :| 0 <= q < |inner| && inner[q] == y {
      HolderFirst(g, parts[..j], inner, node, j, y, q);
    }
  }

  /**
   * Of the arrays and objects one node holds, those at earlier places are seen
   * first: when nothing else holds the later one, the walk comes to it only once
   * it has seen the earlier one.
   */
  lemma EarlierPlaceFirst(g: Graph, root: nat, node: nat, i: nat, j: nat, x: nat, y: nat)
    requires WellFormed(g) && root in g && node in g && Reaches(g, root, node)
    requires i < j && HeldAt(g[node], i, x) && HeldOnlyAt(g, node, j, y) && y != root
    requires x in g && Container(g[x]) && y in g && Container(g[y])
    ensures Before(WalkOrder(g, root), x, y)
  {
    var parts := g[node].Parts();
    HeldOnlyInParts(g, node, j, y);
    WalkOrderMeans(g, root);
    ReachesThenPart(g, root, node, y);
    PreorderFollows(g, [root], {});
    var before, after := PreorderVisit(g, [root], {}, node);
    var seen := Elements(before) + {node};
    PlacesInOrder(g, WalkOrder(g, root), node, j, before, after);
    var left, right := Preorder(g, parts[..j], seen), PlacesFrom(g, node, j, before);
    Associate(before + [node] + left, right, after);
    JoinRest(before, [node], left, right, after);
    SeenUpToPlace(g, root, before, left + right + after, node, i, j, x, y);
    BeforeFrom(before + [node] + left, right + after, x, y);
  }

  // The visits of a walk.

  /** What the visit of this value throws; it is visited if it is an object that holds a `$ref` string. */
  function Throws<E>(g: Graph, visit: string -> Option<E>, id: nat): Option<E> {
    match RefOf(At(g), At(g)(id))
    case None => None
    case Some(ref) => visit(ref)
  }

  function FirstThrown<E>(g: Graph, visit: string -> Option<E>, order: seq<nat>): Option<E> {
    if order == [] then None
    else if Throws(g, visit, order[0]).Some? then Throws(g, visit, order[0])
    else FirstThrown(g, visit, order[1..])
  }

  /** The part of an order up to the first visit that throws. */
  function UntilThrown<E>(g: Graph, visit: string -> Option<E>, order: seq<nat>): seq<nat> {
    if order == [] then []
    else if Throws(g, visit, order[0]).Some? then [order[0]]
    else [order[0]] + UntilThrown(g, visit, order[1..])
  }

  /** Those that hold a `$ref` string. */
  function Referring(g: Graph, order: seq<nat>): seq<nat> {
    if order == [] then []
    else (if RefOf(At(g), At(g)(order[0])).Some? then [order[0]] else []) + Referring(g, order[1..])
  }

  lemma {:induction false} FirstThrownConcat<E>(g: Graph, visit: string -> Option<E>, a: seq<nat>, b: seq<nat>)
    ensures FirstThrown(g, visit, a + b)
         == if FirstThrown(g, visit, a).Some? then FirstThrown(g, visit, a) else FirstThrown(g, visit, b)
  {
    if a == [] {
      assert a + b == b;
    } else {
      FirstThrownConcat(g, visit, a[1..], b);
      assert (a + b)[0] == a[0] && (a + b)[1..] == a[1..] + b;
    }
  }

  lemma {:induction false} UntilThrownConcat<E>(g: Graph, visit: string -> Option<E>, a: seq<nat>, b: seq<nat>)
    ensures UntilThrown(g, visit, a + b)
         == if FirstThrown(g, visit, a).Some? then UntilThrown(g, visit, a) else a + UntilThrown(g, visit, b)
  {
    if a == [] {
      assert a + b == b;
    } else {
      UntilThrownConcat(g, visit, a[1..], b);
      assert (a + b)[0] == a[0] && (a + b)[1..] == a[1..] + b;
      assert a + UntilThrown(g, visit, b) == [a[0]] + (a[1..] + UntilThrown(g, visit, b));
    }
  }

  lemma {:induction false} ReferringConcat(g: Graph, a: seq<nat>, b: seq<nat>)
    ensures Referring(g, a + b) == Referring(g, a) + Referring(g, b)
  {
    if a == [] {
      assert a + b == b;
    } else {
      ReferringConcat(g, a[1..], b);
      assert (a + b)[0] == a[0] && (a + b)[1..] == a[1..] + b;
      var first := if RefOf(At(g), At(g)(a[0])).Some? then [a[0]] else [];
      Associate(first, Referring(g, a[1..]), Referring(g, b));
    }
  }

  lemma {:induction false} ReferringMeans(g: Graph, order: seq<nat>)
    requires Distinct(order)
    ensures Distinct(Referring(g, order))
    ensures forall id :: id in Referring(g, order) <==> id in order && RefOf(At(g), At(g)(id)).Some?
  {
    if order != [] {
      ReferringMeans(g, order[1..]);
      assert forall id :: id in order <==> id == order[0] || id in order[1..];
    }
  }

  /** The visit at place `i` is the first to throw. */
  ghost predicate ThrowsFirst<E>(g: Graph, visit: string -> Option<E>, order: seq<nat>, i: nat) {
    && i < |order| && Throws(g, visit, order[i]).Some?
    && forall j :: 0 <= j < i ==> Throws(g, visit, order[j]).None?
  }

  lemma {:induction false} FirstThrownNone<E>(g: Graph, visit: string -> Option<E>, order: seq<nat>)
    ensures FirstThrown(g, visit, order).None? <==> forall id :: id in order ==> Throws(g, visit, id).None?
    ensures FirstThrown(g, visit, order).None? ==> UntilThrown(g, visit, order) == order
  {
    if order != [] {
      FirstThrownNone(g, visit, order[1..]);
      assert forall id :: id in order <==> id == order[0] || id in order[1..];
      assert order == [order[0]] + order[1..];
    }
  }

  lemma {:induction false} FirstThrownAt<E>(g: Graph, visit: string -> Option<E>, order: seq<nat>) returns (i: nat)
    requires FirstThrown(g, visit, order).Some?
    ensures ThrowsFirst(g, visit, order, i) && FirstThrown(g, visit, order) == Throws(g, visit, order[i])
    ensures UntilThrown(g, visit, order) == order[..i + 1]
  {
    if Throws(g, visit, order[0]).Some? {
      i := 0;
    } else {
      var rest := order[1..];
      i := FirstThrownAt(g, visit, rest);
      assert order[..i + 2] == [order[0]] + rest[..i + 1];
      assert forall j :: 0 < j <= i + 1 ==> order[j] == rest[j - 1];
      i := i + 1;
    }
  }

  /** What has been seen, visited and thrown by a walk in this order, up to the visit that throws. */
  ghost predicate Walked<E>(
    g: Graph, visit: string -> Option<E>, order: seq<nat>,
    seen: set<nat>, visited: seq<nat>, seenToo: set<nat>, visitedToo: seq<nat>, thrown: Option<E>)
  {
    && thrown == FirstThrown(g, visit, order)
    && seenToo == seen + Elements(UntilThrown(g, visit, order))
    && visitedToo == visited + Referring(g, UntilThrown(g, visit, order))
  }

  lemma WalkedNode<E>(
    g: Graph, visit: string -> Option<E>, node: nat, seen: set<nat>, visited: seq<nat>)
    ensures Walked(g, visit, [node], seen, visited, seen + {node},
                   if RefOf(At(g), At(g)(node)).Some? then visited + [node] else visited, Throws(g, visit, node))
  {
    assert Elements([node]) == {node};
    assert UntilThrown(g, visit, [node]) == [node];
    assert Referring(g, [node]) == if RefOf(At(g), At(g)(node)).Some? then [node] else [];
  }

  lemma Together(g: Graph, a: seq<nat>, b: seq<nat>, seen: set<nat>, visited: seq<nat>)
    ensures seen + Elements(a) + Elements(b) == seen + Elements(a + b)
    ensures visited + Referring(g, a) + Referring(g, b) == visited + Referring(g, a + b)
  {
    ElementsConcat(a, b);
    ReferringConcat(g, a, b);
    Associate(visited, Referring(g, a), Referring(g, b));
  }

  /** A walk that goes on where another ended, or would have. */
  lemma WalkedOn<E>(
    g: Graph, visit: string -> Option<E>, a: seq<nat>, b: seq<nat>,
    seen: set<nat>, visited: seq<nat>, middle: set<nat>, visitedMiddle: seq<nat>,
    seenToo: set<nat>, visitedToo: seq<nat>, thrown: Option<E>)
    requires Walked(g, visit, a, seen, visited, middle, visitedMiddle, None)
    requires Walked(g, visit, b, middle, visitedMiddle, seenToo, visitedToo, thrown)
    ensures middle == seen + Elements(a)
    ensures Walked(g, visit, a + b, seen, visited, seenToo, visitedToo, thrown)
  {
    FirstThrownConcat(g, visit, a, b);
    UntilThrownConcat(g, visit, a, b);
    FirstThrownNone(g, visit, a);
    Together(g, a, UntilThrown(g, visit, b), seen, visited);
  }

  lemma WalkedPart<E>(
    g: Graph, visit: string -> Option<E>, a: seq<nat>, b: seq<nat>,
    seen: set<nat>, visited: seq<nat>, seenToo: set<nat>, visitedToo: seq<nat>, thrown: Option<E>)
    requires Walked(g, visit, a, seen, visited, seenToo, visitedToo, thrown) && thrown.Some?
    ensures Walked(g, visit, a + b, seen, visited, seenToo, visitedToo, thrown)
  {
    FirstThrownConcat(g, visit, a, b);
    UntilThrownConcat(g, visit, a, b);
  }

  /** The order of a walk with one more value walked. */
  lemma OrderStep(g: Graph, order: seq<nat>, done: seq<nat>, values: seq<nat>, i: nat, seen: set<nat>)
    requires i < |values| && order == done + Preorder(g, values[i..], seen)
    ensures var first := Preorder(g, [values[i]], seen);
            order == done + first + Preorder(g, values[i + 1..], seen + Elements(first))
  {
    PreorderNext(g, values[i..], seen);
    assert values[i..][1..] == values[i + 1..];
  }

  lemma RefOfContainer<V>(view: V -> Shape<V>, shape: Shape<V>)
    requires RefOf(view, shape).Some?
    ensures Container(shape)
  {
  }

  /** The visits made are of objects that must be visited, each once; all are made exactly when none throws. */
  lemma VisitsMean<E>(g: Graph, root: nat, visit: string -> Option<E>)
    requires WellFormed(g) && root in g
    ensures var order := WalkOrder(g, root);
            var visited := Referring(g, UntilThrown(g, visit, order));
            && Distinct(visited) && (forall id :: id in visited ==> Refers(g, root, id))
            && (FirstThrown(g, visit, order).None? ==> forall id :: Refers(g, root, id) ==> id in visited)
            && (FirstThrown(g, visit, order).None? <==>
                  forall id :: Refers(g, root, id) ==> Throws(g, visit, id).None?)
  {
    var order := WalkOrder(g, root);
    WalkOrderMeans(g, root);
    FirstThrownNone(g, visit, order);
    if FirstThrown(g, visit, order).Some? {
      var i := FirstThrownAt(g, visit, order);
      assert order[i] in order;
    }
    ReferringMeans(g, UntilThrown(g, visit, order));
    forall id
      ensures Refers(g, root, id) <==> id in order && RefOf(At(g), At(g)(id)).Some?
    {
      if RefOf(At(g), At(g)(id)).Some? {
        RefOfContainer(At(g), At(g)(id));
      }
    }
  }

  /** One run of `walkReferences`, with the set its calls share. */
  class ReferenceWalk {
    var seen: set<nat>
    /** The objects whose `$ref` was visited, in order. */
    ghost var visited: seq<nat>

    constructor ()
      ensures seen == {} && visited == []
    {
      seen := {};
      visited := [];
    }

    method Walk<E>(g: Graph, node: nat, visit: string -> Option<E>) returns (thrown: Option<E>)
      requires WellFormed(g) && node in g
      modifies this
      ensures Walked(g, visit, Preorder(g, [node], old(seen)), old(seen), old(visited), seen, visited, thrown)
      decreases g.Keys - seen, 0
    {
      PreorderOne(g, node, seen);
      if !Container(g[node]) || node in seen {
        return None;
      }
      WalkedNode(g, visit, node, seen, visited);
      seen := seen + {node};
      ghost var rest := Preorder(g, g[node].Parts(), seen);
      if RefOf(At(g), g[node]).Some? {
        thrown := visit(RefOf(At(g), g[node]).value);
        visited := visited + [node];
        if thrown.Some? {
          WalkedPart(g, visit, [node], rest, old(seen), old(visited), seen, visited, thrown);
          return;
        }
      }
      ghost var middle, visitedMiddle := seen, visited;
      thrown := WalkParts(g, node, visit);
      WalkedOn(g, visit, [node], rest, old(seen), old(visited), middle, visitedMiddle, seen, visited, thrown);
    }

    /** The loop over the parts of a node just seen. */
    method WalkParts<E>(g: Graph, node: nat, visit: string -> Option<E>) returns (thrown: Option<E>)
      requires WellFormed(g) && node in g
      modifies this
      ensures Walked(g, visit, Preorder(g, g[node].Parts(), old(seen)),
                     old(seen), old(visited), seen, visited, thrown)
      decreases g.Keys - seen, 1
    {
      var parts := g[node].Parts();
      ghost var order, done := Preorder(g, parts, seen), [];
      for i := 0 to |parts|
        invariant order == done + Preorder(g, parts[i..], seen)
        invariant Walked(g, visit, done, old(seen), old(visited), seen, visited, None)
      {
        ghost var middle, visitedMiddle := seen, visited;
        ghost var first := Preorder(g, [parts[i]], seen);
        OrderStep(g, order, done, parts, i, seen);
        assert g.Keys - seen == g.Keys - old(seen) || g.Keys - seen < g.Keys - old(seen);
        thrown := Walk(g, parts[i], visit);
        WalkedOn(g, visit, done, first, old(seen), old(visited), middle, visitedMiddle, seen, visited, thrown);
        done := done + first;
        if thrown.Some? {
          WalkedPart(g, visit, done, Preorder(g, parts[i + 1..], middle + Elements(first)),
                     old(seen), old(visited), seen, visited, thrown);
          return;
        }
        FirstThrownNone(g, visit, first);
      }
      assert order == done;
      thrown := None;
    }
  }

  /**
   * Walks everything `root` reaches. `visit` is called once for each object
   * reached that holds a `$ref` string, in depth-first order, until it throws.
   */
  method WalkReferences<E>(g: Graph, root: nat, visit: string -> Option<E>)
    returns (thrown: Option<E>, ghost visited: seq<nat>)
    requires WellFormed(g) && root in g
    ensures thrown == FirstThrown(g, visit, WalkOrder(g, root))
    ensures visited == Referring(g, UntilThrown(g, visit, WalkOrder(g, root)))
    ensures Distinct(visited) && forall id :: id in visited ==> Refers(g, root, id)
    ensures thrown.None? ==> forall id :: Refers(g, root, id) ==> id in visited
    ensures thrown.None? <==> forall id :: Refers(g, root, id) ==> Throws(g, visit, id).None?
  {
    var walk := new ReferenceWalk();
    thrown := walk.Walk(g, root, visit);
    visited := walk.visited;
    VisitsMean(g, root, visit);
  }
}
