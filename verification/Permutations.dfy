/** Sequences with the same elements, each as often. */
module Permutations {
  function Without<T>(s: seq<T>, j: nat): (r: seq<T>)
    requires j < |s|
  {
    s[..j] + s[j + 1..]
  }

  lemma WithoutCounts<T>(s: seq<T>, j: nat)
    requires j < |s|
    ensures multiset(s) == multiset{s[j]} + multiset(Without(s, j))
  {
    assert s == s[..j] + [s[j]] + s[j + 1..];
  }

  function Map<T, U>(f: T -> U, s: seq<T>): (r: seq<U>)
    ensures |r| == |s| && forall i :: 0 <= i < |r| ==> r[i] == f(s[i])
  {
    seq(|s|, i requires 0 <= i < |s| => f(s[i]))
  }

  lemma MapWithout<T, U>(f: T -> U, s: seq<T>, j: nat)
    requires j < |s|
    ensures multiset(Map(f, s)) == multiset{f(s[j])} + multiset(Map(f, Without(s, j)))
  {
    var image := Map(f, s);
    assert Without(image, j) == Map(f, Without(s, j));
    WithoutCounts(image, j);
  }

  /** Images of permutations are permutations. */
  lemma {:induction false} MapPermutes<T, U>(f: T -> U, a: seq<T>, b: seq<T>)
    requires multiset(a) == multiset(b)
    ensures multiset(Map(f, a)) == multiset(Map(f, b))
    decreases |a|
  {
    hide Map, Without;
    assert |a| == |multiset(a)| && |b| == |multiset(b)|;
    if a == [] {
      assert b == [];
    } else {
      var x := a[0];
      assert x in multiset(b);
      var j :| 0 <= j < |b| && b[j] == x;
      WithoutCounts(a, 0);
      WithoutCounts(b, j);
      assert multiset(Without(a, 0)) == multiset(a) - multiset{x};
      assert multiset(Without(b, j)) == multiset(b) - multiset{x};
      WithoutShorter(a, 0);
      MapPermutes(f, Without(a, 0), Without(b, j));
      MapWithout(f, a, 0);
      MapWithout(f, b, j);
    }
  }

  lemma WithoutShorter<T>(s: seq<T>, j: nat)
    requires j < |s|
    ensures |Without(s, j)| == |s| - 1
  {}

  lemma MapFirst<T, U>(f: T -> U, x: T, s: seq<T>)
    ensures Map(f, [x] + s) == [f(x)] + Map(f, s)
  {}

  lemma FirstCounts<T>(s: seq<T>)
    requires s != []
    ensures multiset(s) == multiset{s[0]} + multiset(s[1..])
  {
    assert s == [s[0]] + s[1..];
  }

  /** When the images of b are a in another order, b can be ordered like a. */
  lemma {:induction false} Align<T, U>(f: T -> U, a: seq<U>, b: seq<T>) returns (c: seq<T>)
    requires multiset(a) == multiset(Map(f, b))
    ensures multiset(c) == multiset(b) && Map(f, c) == a
    decreases |a|
  {
    var image := Map(f, b);
    assert |a| == |multiset(a)| && |image| == |multiset(image)|;
    if a == [] {
      c := [];
    } else {
      assert a[0] in multiset(image);
      var j :| 0 <= j < |image| && image[j] == a[0];
      hide Map, Without;
      MapWithout(f, b, j);
      WithoutCounts(b, j);
      FirstCounts(a);
      assert multiset(a[1..]) == multiset(a) - multiset{a[0]};
      var rest := Align(f, a[1..], Without(b, j));
      MapFirst(f, b[j], rest);
      c := [b[j]] + rest;
      FirstCounts(c);
    }
  }
}
