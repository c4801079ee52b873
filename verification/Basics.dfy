/** Optional values and lists of lists. */
module Basics {

  datatype Option<+T> = None | Some(value: T)

  /** The parts of a list of lists, one after the other. */
  function Concat<T>(ss: seq<seq<T>>): (r: seq<T>) {
    if ss == [] then [] else ss[0] + Concat(ss[1..])
  }

  lemma {:induction false} ConcatAppend<T>(a: seq<seq<T>>, b: seq<seq<T>>)
    ensures Concat(a + b) == Concat(a) + Concat(b)
  {
    if a == [] {
      assert a + b == b;
    } else {
      assert (a + b)[1..] == a[1..] + b;
      ConcatAppend(a[1..], b);
    }
  }

  lemma {:induction false} ConcatOfNothing<T>(ss: seq<seq<T>>)
    requires forall i :: 0 <= i < |ss| ==> ss[i] == []
    ensures Concat(ss) == []
  {
    if ss != [] {
      ConcatOfNothing(ss[1..]);
    }
  }

  /** A set that is not empty has a member. */
  lemma Member<T>(s: set<T>) returns (x: T)
    requires s != {}
    ensures x in s
  {
    x :| x in s;
  }

  ghost predicate Ascending<T>(s: seq<T>, rank: T -> real) {
    forall i, j :: 0 <= i < j < |s| ==> rank(s[i]) < rank(s[j])
  }

  lemma AscendingInsert<T(!new)>(s: seq<T>, rank: T -> real, x: T, i: nat)
    requires Ascending(s, rank) && i <= |s|
    requires forall j :: 0 <= j < i ==> rank(s[j]) < rank(x)
    requires forall j :: i <= j < |s| ==> rank(x) < rank(s[j])
    ensures Ascending(s[..i] + [x] + s[i..], rank)
    ensures forall k :: k in s[..i] + [x] + s[i..] <==> k == x || k in s
  {
    forall k ensures k in s[..i] + [x] + s[i..] <==> k == x || k in s {
      assert s == s[..i] + s[i..];
    }
  }

  /** Where a new value goes. */
  method Position<T>(s: seq<T>, rank: T -> real, x: T) returns (i: nat)
    requires Ascending(s, rank) && forall j :: 0 <= j < |s| ==> rank(s[j]) != rank(x)
    ensures i <= |s|
    ensures forall j :: 0 <= j < i ==> rank(s[j]) < rank(x)
    ensures forall j :: i <= j < |s| ==> rank(x) < rank(s[j])
  {
    i := 0;
    while i < |s| && rank(s[i]) < rank(x)
      invariant i <= |s|
      invariant forall j :: 0 <= j < i ==> rank(s[j]) < rank(x)
    {
      i := i + 1;
    }
  }

  /** Collects the members of a set in an arbitrary order and sorts them by insertion. */
  method SortSet<T(==, !new)>(members: set<T>, rank: T -> real) returns (r: seq<T>)
    requires forall a, b :: a in members && b in members && rank(a) == rank(b) ==> a == b
    ensures Ascending(r, rank)
    ensures forall k :: k in r <==> k in members
  {
    r := [];
    var rest := members;
    while rest != {}
      invariant rest <= members
      invariant Ascending(r, rank)
      invariant forall k :: k in r <==> k in members - rest
      decreases rest
    {
      var key :| key in rest;
      assert forall j :: 0 <= j < |r| ==> r[j] in r;
      hide Ascending;
      var i := Position(r, rank, key);
      AscendingInsert(r, rank, key, i);
      rest := rest - {key};
      r := r[..i] + [key] + r[i..];
    }
  }
}
