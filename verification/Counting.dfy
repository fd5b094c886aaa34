/** Sorted lists of numbers, and sizes of sets of list indices. */
module Counting {

  ghost predicate Sorted(h: seq<real>) {
    forall i, j :: 0 <= i <= j < |h| ==> h[i] <= h[j]
  }

  /** The indices from `lo` up to but not including `hi`. */
  ghost function Interval(lo: nat, hi: nat): (s: set<nat>)
    requires lo <= hi
    ensures |s| == hi - lo
    ensures forall i: nat {:trigger i in s} :: i in s <==> lo <= i < hi
    decreases hi - lo
  {
    if lo == hi then {} else {lo} + Interval(lo + 1, hi)
  }

  lemma SubsetSize(a: set<nat>, b: set<nat>)
    requires a <= b
    ensures |a| <= |b|
  {
    assert b == a + (b - a);
  }

  lemma {:induction false} LeastMember(s: set<nat>) returns (least: nat)
    requires s != {}
    ensures least in s && forall i :: i in s ==> least <= i
  {
    var i :| i in s;
    if s == {i} {
      least := i;
    } else {
      var rest := LeastMember(s - {i});
      least := if i < rest then i else rest;
      assert forall j :: j in s ==> j == i || j in s - {i};
    }
  }
}
