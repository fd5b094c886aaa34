/** Dropping undefined values: `stripUndefinedDeep` of the OpenAPI builder, on values written out as trees. */
module StripUndefined {
  import opened Wrappers
  import opened JsonValues
  import opened References

  function Strip(t: Tree): Tree {
    match t.shape
    case Array(items) => Tree(Array(StripItems(items)))
    case Object(entries) => Tree(Object(StripEntries(entries)))
    case _ => t
  }

  /** `map` then `filter`. */
  function StripItems(items: seq<Tree>): seq<Tree> {
    if items == [] then []
    else
      var first := Strip(items[0]);
      if first.shape.Undefined? then StripItems(items[1..]) else [first] + StripItems(items[1..])
  }

  /** `filter` then `map`. */
  function StripEntries(entries: seq<(string, Tree)>): seq<(string, Tree)> {
    if entries == [] then []
    else
      var first := entries[0];
      assert first.1 < first;
      if first.1.shape.Undefined? then StripEntries(entries[1..])
      else [(first.0, Strip(first.1))] + StripEntries(entries[1..])
  }

  // No undefined is left below the root, and nothing else is touched.

  ghost predicate Clean(t: Tree)
    decreases t, 0
  {
    match t.shape
    case Array(items) => forall i :: 0 <= i < |items| ==> CleanPart(items[i])
    case Object(entries) => forall i :: 0 <= i < |entries| ==> CleanPart(entries[i].1)
    case _ => true
  }

  ghost predicate CleanPart(t: Tree)
    decreases t, 1
  {
    !t.shape.Undefined? && Clean(t)
  }

  lemma {:induction false} StripIsClean(t: Tree)
    ensures Clean(Strip(t))
    ensures Strip(t).shape.Undefined? <==> t.shape.Undefined?
  {
    match t.shape
    case Array(items) => StripItemsAreClean(items);
    case Object(entries) => StripEntriesAreClean(entries);
    case _ =>
  }

  lemma {:induction false} StripItemsAreClean(items: seq<Tree>)
    ensures forall item :: item in StripItems(items) ==> CleanPart(item)
  {
    if items != [] {
      StripIsClean(items[0]);
      StripItemsAreClean(items[1..]);
    }
  }

  lemma {:induction false} StripEntriesAreClean(entries: seq<(string, Tree)>)
    ensures forall entry :: entry in StripEntries(entries) ==> CleanPart(entry.1)
  {
    if entries != [] {
      var first := entries[0];
      assert first.1 < first;
      StripIsClean(first.1);
      StripEntriesAreClean(entries[1..]);
    }
  }

  lemma {:induction false} CleanIsFixed(t: Tree)
    requires Clean(t)
    ensures Strip(t) == t
  {
    match t.shape
    case Array(items) => CleanItemsAreFixed(items);
    case Object(entries) => CleanEntriesAreFixed(entries);
    case _ =>
  }

  lemma {:induction false} CleanItemsAreFixed(items: seq<Tree>)
    requires forall i :: 0 <= i < |items| ==> CleanPart(items[i])
    ensures StripItems(items) == items
  {
    if items != [] {
      CleanIsFixed(items[0]);
      CleanItemsAreFixed(items[1..]);
    }
  }

  lemma {:induction false} CleanEntriesAreFixed(entries: seq<(string, Tree)>)
    requires forall i :: 0 <= i < |entries| ==> CleanPart(entries[i].1)
    ensures StripEntries(entries) == entries
  {
    if entries != [] {
      var first := entries[0];
      assert first.1 < first;
      CleanIsFixed(first.1);
      CleanEntriesAreFixed(entries[1..]);
    }
  }

  /** Exactly the values with no undefined below the root are left alone; so stripping twice is stripping once. */
  lemma StripFixedIff(t: Tree)
    ensures Strip(t) == t <==> Clean(t)
    ensures Strip(Strip(t)) == Strip(t)
  {
    StripIsClean(t);
    CleanIsFixed(Strip(t));
    if Clean(t) {
      CleanIsFixed(t);
    }
  }

  /** Each part is stripped on its own, and the parts stay in order. */
  lemma {:induction false} StripKeepsOrder(a: seq<Tree>, b: seq<Tree>)
    ensures StripItems(a + b) == StripItems(a) + StripItems(b)
  {
    if a == [] {
      assert a + b == b;
    } else {
      assert (a + b)[1..] == a[1..] + b && (a + b)[0] == a[0];
      StripKeepsOrder(a[1..], b);
    }
  }

  lemma {:induction false} StripKeepsKeyOrder(a: seq<(string, Tree)>, b: seq<(string, Tree)>)
    ensures StripEntries(a + b) == StripEntries(a) + StripEntries(b)
  {
    if a == [] {
      assert a + b == b;
    } else {
      assert (a + b)[1..] == a[1..] + b && (a + b)[0] == a[0];
      StripKeepsKeyOrder(a[1..], b);
    }
  }

  // Reading a stripped value.

  lemma {:induction false} StripHasNoNewKey(entries: seq<(string, Tree)>, key: string)
    requires forall i :: 0 <= i < |entries| ==> entries[i].0 != key
    ensures Find(StripEntries(entries), key) == None
  {
    if entries != [] {
      StripHasNoNewKey(entries[1..], key);
      FindCons((entries[0].0, Strip(entries[0].1)), StripEntries(entries[1..]), key);
    }
  }

  lemma {:induction false} StripFind(entries: seq<(string, Tree)>, key: string)
    requires DistinctKeys(entries)
    ensures Find(StripEntries(entries), key)
         == match Find(entries, key)
            case None => None
            case Some(value) => if value.shape.Undefined? then None else Some(Strip(value))
  {
    if entries != [] {
      FindCons((entries[0].0, Strip(entries[0].1)), StripEntries(entries[1..]), key);
      if entries[0].0 == key {
        StripHasNoNewKey(entries[1..], key);
      } else {
        StripFind(entries[1..], key);
      }
    }
  }

  /** Reading a property and stripping commute. */
  lemma StripProp(t: Tree, key: string)
    requires t.shape.Object? ==> DistinctKeys(t.shape.entries)
    ensures Prop(ShapeOf, Strip(t).shape, key) == Strip(Tree(Prop(ShapeOf, t.shape, key))).shape
    ensures t.shape.Object? ==>
              (Has(Strip(t).shape.entries, key) <==> !Prop(ShapeOf, t.shape, key).Undefined?)
  {
    if t.shape.Object? {
      StripFind(t.shape.entries, key);
      StripIsClean(Tree(Prop(ShapeOf, t.shape, key)));
      if Has(t.shape.entries, key) {
        StripIsClean(Find(t.shape.entries, key).value);
      }
    }
  }

  // References.

  /** Values a program can hold: an object has each key once. */
  ghost predicate Proper(t: Tree) {
    match t.shape
    case Array(items) => forall i :: 0 <= i < |items| ==> Proper(items[i])
    case Object(entries) => DistinctKeys(entries) && forall i :: 0 <= i < |entries| ==> Proper(entries[i].1)
    case _ => true
  }

  /** Stripping keeps values proper. */
  lemma {:induction false} StripIsProper(t: Tree)
    requires Proper(t)
    ensures Proper(Strip(t))
  {
    match t.shape
    case Array(items) => StripItemsAreProper(items);
    case Object(entries) => StripEntriesAreProper(entries);
    case _ =>
  }

  lemma {:induction false} StripItemsAreProper(items: seq<Tree>)
    requires forall i :: 0 <= i < |items| ==> Proper(items[i])
    ensures forall i :: 0 <= i < |StripItems(items)| ==> Proper(StripItems(items)[i])
  {
    if items != [] {
      StripIsProper(items[0]);
      StripItemsAreProper(items[1..]);
    }
  }

  lemma {:induction false} StripEntriesAreProper(entries: seq<(string, Tree)>)
    requires DistinctKeys(entries) && forall i :: 0 <= i < |entries| ==> Proper(entries[i].1)
    ensures DistinctKeys(StripEntries(entries))
    ensures forall i :: 0 <= i < |StripEntries(entries)| ==> Proper(StripEntries(entries)[i].1)
  {
    if entries != [] {
      var first := entries[0];
      assert first.1 < first;
      StripIsProper(first.1);
      StripEntriesAreProper(entries[1..]);
      StripHasNoNewKey(entries[1..], first.0);
      FindNone(StripEntries(entries[1..]), first.0);
    }
  }

  /** The value, or something within it, is an object whose `$ref` is this string. */
  ghost predicate Mentions(t: Tree, ref: string) {
    || Prop(ShapeOf, t.shape, "$ref") == String(ref)
    || match t.shape
       case Array(items) => exists i :: 0 <= i < |items| && Mentions(items[i], ref)
       case Object(entries) => exists i :: 0 <= i < |entries| && Mentions(entries[i].1, ref)
       case _ => false
  }

  /** Stripping keeps exactly the references there were. */
  lemma {:induction false} StripKeepsReferences(t: Tree, ref: string)
    requires Proper(t)
    ensures Mentions(Strip(t), ref) <==> Mentions(t, ref)
  {
    match t.shape
    case Array(items) => StripItemsKeepReferences(items, ref);
    case Object(entries) =>
      StripEntriesKeepReferences(entries, ref);
      StripProp(t, "$ref");
      assert RefOf(ShapeOf, Strip(t).shape) == RefOf(ShapeOf, t.shape);
    case _ =>
  }

  ghost predicate ItemsMention(items: seq<Tree>, ref: string) {
    exists i :: 0 <= i < |items| && Mentions(items[i], ref)
  }

  ghost predicate EntriesMention(entries: seq<(string, Tree)>, ref: string) {
    exists i :: 0 <= i < |entries| && Mentions(entries[i].1, ref)
  }

  lemma ItemsMentionCons(items: seq<Tree>, ref: string)
    requires items != []
    ensures ItemsMention(items, ref) <==> Mentions(items[0], ref) || ItemsMention(items[1..], ref)
  {
  }

  lemma EntriesMentionCons(entries: seq<(string, Tree)>, ref: string)
    requires entries != []
    ensures EntriesMention(entries, ref) <==> Mentions(entries[0].1, ref) || EntriesMention(entries[1..], ref)
  {
  }

  lemma {:induction false} StripItemsKeepReferences(items: seq<Tree>, ref: string)
    requires forall i :: 0 <= i < |items| ==> Proper(items[i])
    ensures ItemsMention(StripItems(items), ref) <==> ItemsMention(items, ref)
  {
    if items != [] {
      StripKeepsReferences(items[0], ref);
      StripItemsKeepReferences(items[1..], ref);
      ItemsMentionCons(items, ref);
      StripIsClean(items[0]);
      if !items[0].shape.Undefined? {
        ItemsMentionCons(StripItems(items), ref);
        assert StripItems(items)[1..] == StripItems(items[1..]);
      }
    }
  }

  lemma {:induction false} StripEntriesKeepReferences(entries: seq<(string, Tree)>, ref: string)
    requires forall i :: 0 <= i < |entries| ==> Proper(entries[i].1)
    ensures EntriesMention(StripEntries(entries), ref) <==> EntriesMention(entries, ref)
  {
    if entries != [] {
      var first := entries[0];
      assert first.1 < first;
      StripKeepsReferences(first.1, ref);
      StripEntriesKeepReferences(entries[1..], ref);
      EntriesMentionCons(entries, ref);
      if !entries[0].1.shape.Undefined? {
        EntriesMentionCons(StripEntries(entries), ref);
        assert StripEntries(entries)[1..] == StripEntries(entries[1..]);
      }
    }
  }

  // What is printed as JSON.

  /** What JSON text says of a value: an undefined property is not there, an undefined item is null. */
  function Meaning(t: Tree): Tree {
    match t.shape
    case Array(items) => Tree(Array(MeaningOfItems(items)))
    case Object(entries) => Tree(Object(MeaningOfEntries(entries)))
    case _ => t
  }

  function MeaningOfItems(items: seq<Tree>): (meanings: seq<Tree>)
    ensures |meanings| == |items|
  {
    if items == [] then []
    else [if items[0].shape.Undefined? then Tree(Null) else Meaning(items[0])] + MeaningOfItems(items[1..])
  }

  function MeaningOfEntries(entries: seq<(string, Tree)>): seq<(string, Tree)> {
    if entries == [] then []
    else
      var first := entries[0];
      assert first.1 < first;
      if first.1.shape.Undefined? then MeaningOfEntries(entries[1..])
      else [(first.0, Meaning(first.1))] + MeaningOfEntries(entries[1..])
  }

  /** No array anywhere in the value holds an undefined item. */
  ghost predicate NoUndefinedItem(t: Tree) {
    match t.shape
    case Array(items) => forall i :: 0 <= i < |items| ==> !items[i].shape.Undefined? && NoUndefinedItem(items[i])
    case Object(entries) => forall i :: 0 <= i < |entries| ==> NoUndefinedItem(entries[i].1)
    case _ => true
  }

  /** Stripping keeps the JSON text exactly when no array held an undefined item. */
  lemma {:induction false} StripKeepsMeaningIff(t: Tree)
    ensures Meaning(Strip(t)) == Meaning(t) <==> NoUndefinedItem(t)
  {
    match t.shape
    case Array(items) => StripItemsMeaning(items);
    case Object(entries) => StripEntriesMeaning(entries);
    case _ =>
  }

  lemma {:induction false} StripItemsMeaning(items: seq<Tree>)
    ensures |StripItems(items)| <= |items|
    ensures MeaningOfItems(StripItems(items)) == MeaningOfItems(items)
       <==> forall i :: 0 <= i < |items| ==> !items[i].shape.Undefined? && NoUndefinedItem(items[i])
  {
    if items != [] {
      var first, rest := items[0], items[1..];
      StripKeepsMeaningIff(first);
      StripItemsMeaning(rest);
      StripIsClean(first);
      assert items == [first] + rest;
      if !first.shape.Undefined? {
        var stripped := StripItems(items);
        assert stripped == [Strip(first)] + StripItems(rest) && stripped[1..] == StripItems(rest);
        var a, b := MeaningOfItems(stripped), MeaningOfItems(items);
        assert a[1..] == MeaningOfItems(StripItems(rest)) && b[1..] == MeaningOfItems(rest);
        assert a == b <==> a[0] == b[0] && a[1..] == b[1..];
      }
    }
  }

  lemma {:induction false} StripEntriesMeaning(entries: seq<(string, Tree)>)
    ensures MeaningOfEntries(StripEntries(entries)) == MeaningOfEntries(entries)
       <==> forall i :: 0 <= i < |entries| ==> NoUndefinedItem(entries[i].1)
  {
    if entries != [] {
      var first, rest := entries[0], entries[1..];
      assert first.1 < first;
      StripKeepsMeaningIff(first.1);
      StripEntriesMeaning(rest);
      StripIsClean(first.1);
      assert entries == [first] + rest;
      if !first.1.shape.Undefined? {
        var stripped := StripEntries(entries);
        assert stripped[1..] == StripEntries(rest);
        var a, b := MeaningOfEntries(stripped), MeaningOfEntries(entries);
        assert a[1..] == MeaningOfEntries(StripEntries(rest)) && b[1..] == MeaningOfEntries(rest);
        assert a == b <==> a[0] == b[0] && a[1..] == b[1..];
      }
    }
  }
}
