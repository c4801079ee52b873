/**
 Merging time-ordered streams.

 A stream is the sequence of values that its channel carries before it is
 closed.  `Fuse` is the k-way merge; the reference it is proved against is the
 stable sort by time of all the streams laid end to end.
 */
module Merge {
  import opened Basics

  datatype Timed<+T> = Timed(time: real, item: T)

  ghost predicate Ordered<T>(s: seq<Timed<T>>) {
    forall i, j :: 0 <= i < j < |s| ==> s[i].time <= s[j].time
  }

  // ---------- Stable sort ----------

  /** The elements of s at time t, in their order. */
  function At<T>(s: seq<Timed<T>>, t: real): (r: seq<Timed<T>>) {
    if s == [] then []
    else (if s[0].time == t then [s[0]] else []) + At(s[1..], t)
  }

  /** Puts x before the first element that is not earlier. */
  function Insert<T>(x: Timed<T>, s: seq<Timed<T>>): (r: seq<Timed<T>>)
  {
    if s == [] || x.time <= s[0].time then [x] + s
    else [s[0]] + Insert(x, s[1..])
  }

  function StableSort<T>(s: seq<Timed<T>>): (r: seq<Timed<T>>) {
    if s == [] then [] else Insert(s[0], StableSort(s[1..]))
  }

  lemma {:induction false} AtConcat<T>(a: seq<Timed<T>>, b: seq<Timed<T>>, t: real)
    ensures At(a + b, t) == At(a, t) + At(b, t)
  {
    if a == [] {
      assert a + b == b;
    } else {
      assert (a + b)[1..] == a[1..] + b;
      AtConcat(a[1..], b, t);
      var first := if a[0].time == t then [a[0]] else [];
      assert At(a + b, t) == first + (At(a[1..], t) + At(b, t));
    }
  }

  lemma AtOne<T>(x: Timed<T>, t: real)
    ensures At([x], t) == if x.time == t then [x] else []
  {
    assert [x][1..] == [];
  }

  lemma AtHead<T>(s: seq<Timed<T>>, t: real)
    requires s != []
    ensures At(s, t) == At([s[0]], t) + At(s[1..], t)
  {
    AtOne(s[0], t);
  }

  lemma {:induction false} InsertMembers<T>(x: Timed<T>, s: seq<Timed<T>>)
    ensures forall e :: e in Insert(x, s) ==> e == x || e in s
  {
    if s != [] && s[0].time < x.time {
      InsertMembers(x, s[1..]);
    }
  }

  lemma {:induction false} OrderedInsert<T>(x: Timed<T>, s: seq<Timed<T>>)
    requires Ordered(s)
    ensures Ordered(Insert(x, s))
  {
    if s != [] && s[0].time < x.time {
      OrderedInsert(x, s[1..]);
      InsertMembers(x, s[1..]);
      var r := Insert(x, s[1..]);
      forall j | 0 <= j < |r| ensures s[0].time <= r[j].time {
        assert r[j] in r;
      }
    }
  }

  lemma {:induction false} AtInsert<T>(x: Timed<T>, s: seq<Timed<T>>, t: real)
    ensures At(Insert(x, s), t) == At([x], t) + At(s, t)
  {
    if s == [] || x.time <= s[0].time {
      AtConcat([x], s, t);
    } else {
      var r := Insert(x, s[1..]);
      AtInsert(x, s[1..], t);
      AtHead(s, t);
      AtHead([s[0]] + r, t);
      assert ([s[0]] + r)[1..] == r;
      AtOne(x, t);
      AtOne(s[0], t);
    }
  }

  /** StableSort sorts, and keeps the elements of each time in their order. */
  lemma {:induction false} StableSortSorts<T>(s: seq<Timed<T>>)
    ensures Ordered(StableSort(s))
    ensures forall t :: At(StableSort(s), t) == At(s, t)
  {
    if s != [] {
      StableSortSorts(s[1..]);
      OrderedInsert(s[0], StableSort(s[1..]));
      forall t ensures At(StableSort(s), t) == At(s, t) {
        AtInsert(s[0], StableSort(s[1..]), t);
        assert s == [s[0]] + s[1..];
        AtConcat([s[0]], s[1..], t);
      }
    }
  }

  lemma {:induction false} AtMembers<T>(s: seq<Timed<T>>, t: real)
    ensures forall e :: e in At(s, t) <==> e in s && e.time == t
  {
    if s != [] {
      AtMembers(s[1..], t);
      assert s == [s[0]] + s[1..];
    }
  }

  lemma FirstAt<T>(s: seq<Timed<T>>)
    requires s != []
    ensures At(s, s[0].time) != [] && At(s, s[0].time)[0] == s[0]
  {}

  lemma NotEarlier<T>(a: seq<Timed<T>>, b: seq<Timed<T>>)
    requires Ordered(b) && a != [] && b != []
    requires At(a, a[0].time) == At(b, a[0].time)
    ensures b[0].time <= a[0].time
  {
    var x := a[0];
    FirstAt(a);
    AtMembers(b, x.time);
    assert x in At(b, x.time);
    assert x in b;
  }

  lemma SameFirst<T>(a: seq<Timed<T>>, b: seq<Timed<T>>)
    requires Ordered(a) && Ordered(b) && a != [] && b != []
    requires forall t :: At(a, t) == At(b, t)
    ensures a[0] == b[0]
  {
    NotEarlier(a, b);
    NotEarlier(b, a);
    FirstAt(a);
    FirstAt(b);
  }

  lemma SomeTime<T>(s: seq<Timed<T>>)
    ensures s == [] || exists t :: At(s, t) != []
  {
    if s != [] {
      var t := s[0].time;
      assert At(s, t) != [];
    }
  }

  lemma Cancel<T>(p: seq<T>, x: seq<T>, y: seq<T>)
    requires p + x == p + y
    ensures x == y
  {
    assert x == (p + x)[|p|..];
    assert y == (p + y)[|p|..];
  }

  /** Two ordered sequences that agree at every time are the same. */
  lemma {:induction false} OrderedUnique<T>(a: seq<Timed<T>>, b: seq<Timed<T>>)
    requires Ordered(a) && Ordered(b)
    requires forall t :: At(a, t) == At(b, t)
    ensures a == b
  {
    if a == [] || b == [] {
      SomeTime(a);
      SomeTime(b);
    } else {
      SameFirst(a, b);
      forall t ensures At(a[1..], t) == At(b[1..], t) {
        assert At(a, t) == At(b, t);
        AtHead(a, t);
        AtHead(b, t);
        Cancel(At([a[0]], t), At(a[1..], t), At(b[1..], t));
      }
      OrderedUnique(a[1..], b[1..]);
      assert a == [a[0]] + a[1..] && b == [b[0]] + b[1..];
    }
  }

  /** The stable sort is the only ordered sequence that agrees with s at every time. */
  lemma StableSortUnique<T>(out: seq<Timed<T>>, s: seq<Timed<T>>)
    requires Ordered(out) && forall t :: At(out, t) == At(s, t)
    ensures out == StableSort(s)
  {
    StableSortSorts(s);
    OrderedUnique(out, StableSort(s));
  }

  // ---------- Fuse ----------

  /** What a stream still has to give: the element taken off it, then the channel. */
  ghost function Rest<T>(elements: seq<Option<Timed<T>>>, chans: seq<seq<Timed<T>>>): (r: seq<seq<Timed<T>>>)
    requires |elements| == |chans|
    ensures |r| == |elements|
    ensures forall i :: 0 <= i < |r| ==>
              r[i] == (if elements[i].Some? then [elements[i].value] else []) + chans[i]
  {
    seq(|elements|, i requires 0 <= i < |elements| =>
      (if elements[i].Some? then [elements[i].value] else []) + chans[i])
  }

  ghost predicate AllOrdered<T>(ss: seq<seq<Timed<T>>>) {
    forall i :: 0 <= i < |ss| ==> Ordered(ss[i])
  }

  /** m is the first stream whose head is not later than any head. */
  ghost predicate FirstMinimum<T>(rest: seq<seq<Timed<T>>>, m: nat) {
    && m < |rest| && rest[m] != []
    && (forall i :: 0 <= i < |rest| && rest[i] != [] ==> rest[m][0].time <= rest[i][0].time)
    && (forall i :: 0 <= i < m && rest[i] != [] ==> rest[m][0].time < rest[i][0].time)
  }

  lemma {:induction false} AtLater<T>(s: seq<Timed<T>>, t: real)
    requires Ordered(s) && (s != [] ==> t < s[0].time)
    ensures At(s, t) == []
  {
    if s != [] {
      AtLater(s[1..], t);
    }
  }

  /** Taking the head off the first minimal stream takes the head of its time off the whole. */
  lemma {:induction false} TakeMinimum<T>(rest: seq<seq<Timed<T>>>, m: nat, t: real)
    requires AllOrdered(rest) && FirstMinimum(rest, m)
    ensures At(Concat(rest), t) ==
            At([rest[m][0]], t) + At(Concat(rest[m := rest[m][1..]]), t)
  {
    hide At, Ordered;
    var x := rest[m][0];
    var less := rest[m := rest[m][1..]];
    AtOne(x, t);
    AtConcat(rest[0], Concat(rest[1..]), t);
    AtConcat(less[0], Concat(less[1..]), t);
    if m == 0 {
      assert less[1..] == rest[1..];
      assert rest[0] == [x] + rest[0][1..];
      AtConcat([x], rest[0][1..], t);
    } else {
      assert FirstMinimum(rest[1..], m - 1);
      assert less[1..] == rest[1..][m - 1 := rest[m][1..]];
      TakeMinimum(rest[1..], m - 1, t);
      if t == x.time {
        AtLater(rest[0], t);
      }
    }
  }

  ghost function Length<T>(ss: seq<seq<T>>): (n: nat) {
    if ss == [] then 0 else |ss[0]| + Length(ss[1..])
  }

  lemma {:induction false} LengthDrops<T>(ss: seq<seq<T>>, m: nat, s: seq<T>)
    requires m < |ss| && |s| < |ss[m]|
    ensures Length(ss[m := s]) < Length(ss)
  {
    if m == 0 {
      assert ss[m := s][1..] == ss[1..];
    } else {
      assert ss[m := s][1..] == ss[1..][m - 1 := s];
      LengthDrops(ss[1..], m - 1, s);
    }
  }

  /** The scan for the next element to send. */
  method FindMinimum<T>(elements: seq<Option<Timed<T>>>) returns (min: nat)
    requires elements != []
    ensures min < |elements|
    ensures elements[min].None? ==> forall i :: 0 <= i < |elements| ==> elements[i].None?
    ensures elements[min].Some? ==>
              (forall i :: 0 <= i < |elements| && elements[i].Some? ==>
                 elements[min].value.time <= elements[i].value.time)
              && (forall i :: 0 <= i < min && elements[i].Some? ==>
                    elements[min].value.time < elements[i].value.time)
  {
    min := 0;
    for k := 0 to |elements|
      invariant min < |elements| && min <= k
      invariant elements[min].None? ==> forall i :: 0 <= i < k ==> elements[i].None?
      invariant elements[min].Some? ==>
                  (forall i :: 0 <= i < k && elements[i].Some? ==>
                     elements[min].value.time <= elements[i].value.time)
                  && (forall i :: 0 <= i < min && elements[i].Some? ==>
                        elements[min].value.time < elements[i].value.time)
    {
      if elements[k].None? {
        continue;
      }
      if elements[min].None? {
        min := k;
        continue;
      }
      if elements[k].value.time < elements[min].value.time {
        min := k;
        continue;
      }
    }
  }

  /** Receiving from a channel: its next value, or nothing once it is drained. */
  function Receive<T>(chan: seq<T>): (r: (Option<T>, seq<T>)) {
    if chan == [] then (None, []) else (Some(chan[0]), chan[1..])
  }

  /** Nothing is lost or reordered at any time: sent, then still to send, is the input. */
  ghost predicate Balanced<T>(ins: seq<seq<Timed<T>>>, rest: seq<seq<Timed<T>>>, out: seq<Timed<T>>) {
    forall t :: At(out, t) + At(Concat(rest), t) == At(Concat(ins), t)
  }

  ghost predicate NotLater<T>(out: seq<Timed<T>>, rest: seq<seq<Timed<T>>>) {
    forall k, i :: 0 <= k < |out| && 0 <= i < |rest| && rest[i] != [] ==> out[k].time <= rest[i][0].time
  }

  /** What the loop of Fuse keeps. */
  ghost predicate Merging<T>(ins: seq<seq<Timed<T>>>, rest: seq<seq<Timed<T>>>, out: seq<Timed<T>>) {
    |rest| == |ins| && AllOrdered(rest) && Ordered(out) && Balanced(ins, rest, out) && NotLater(out, rest)
  }

  lemma BalancedStep<T>(ins: seq<seq<Timed<T>>>, rest: seq<seq<Timed<T>>>, out: seq<Timed<T>>, m: nat)
    requires AllOrdered(rest) && Balanced(ins, rest, out) && FirstMinimum(rest, m)
    ensures Balanced(ins, rest[m := rest[m][1..]], out + [rest[m][0]])
  {
    var x, less := rest[m][0], rest[m := rest[m][1..]];
    forall t ensures At(out + [x], t) + At(Concat(less), t) == At(Concat(ins), t) {
      hide At, Concat;
      TakeMinimum(rest, m, t);
      AtConcat(out, [x], t);
      assert At(out, t) + At(Concat(rest), t) == At(Concat(ins), t);
    }
  }

  lemma OrderedStep<T>(rest: seq<seq<Timed<T>>>, out: seq<Timed<T>>, m: nat)
    requires AllOrdered(rest) && Ordered(out) && NotLater(out, rest) && FirstMinimum(rest, m)
    ensures Ordered(out + [rest[m][0]])
    ensures AllOrdered(rest[m := rest[m][1..]])
    ensures NotLater(out + [rest[m][0]], rest[m := rest[m][1..]])
  {
    var x := rest[m][0];
    var less: seq<seq<Timed<T>>> := rest[m := rest[m][1..]];
    forall i | 0 <= i < |less| && less[i] != []
      ensures x.time <= less[i][0].time
      ensures rest[i] != [] && rest[i][0].time <= less[i][0].time
    {
      assert Ordered(rest[i]);
    }
  }

  lemma MergeStep<T>(ins: seq<seq<Timed<T>>>, rest: seq<seq<Timed<T>>>, out: seq<Timed<T>>, m: nat)
    requires Merging(ins, rest, out) && FirstMinimum(rest, m)
    ensures Merging(ins, rest[m := rest[m][1..]], out + [rest[m][0]])
  {
    hide Balanced, AllOrdered, Ordered, NotLater;
    BalancedStep(ins, rest, out, m);
    OrderedStep(rest, out, m);
  }

  /** Receiving the next value of stream m takes the head off what it still has to give. */
  lemma RestAfterReceive<T>(elements: seq<Option<Timed<T>>>, chans: seq<seq<Timed<T>>>, m: nat)
    requires |elements| == |chans| && m < |elements| && elements[m].Some?
    ensures var rest := Rest(elements, chans);
            Rest(elements[m := Receive(chans[m]).0], chans[m := Receive(chans[m]).1]) == rest[m := rest[m][1..]]
  {
    var rest := Rest(elements, chans);
    var elements', chans' := elements[m := Receive(chans[m]).0], chans[m := Receive(chans[m]).1];
    forall k | 0 <= k < |elements|
      ensures Rest(elements', chans')[k] == rest[m := rest[m][1..]][k]
    {
      if k == m {
        assert rest[m][1..] == chans[m];
      }
    }
  }

  lemma MergeEnd<T>(ins: seq<seq<Timed<T>>>, rest: seq<seq<Timed<T>>>, out: seq<Timed<T>>)
    requires Merging(ins, rest, out)
    requires forall i :: 0 <= i < |rest| ==> rest[i] == []
    ensures out == StableSort(Concat(ins))
  {
    ConcatOfNothing(rest);
    forall t ensures At(out, t) == At(Concat(ins), t) {
      assert At(out, t) + At(Concat(rest), t) == At(Concat(ins), t);
    }
    StableSortUnique(out, Concat(ins));
  }

  lemma MinimumOfRest<T>(elements: seq<Option<Timed<T>>>, chans: seq<seq<Timed<T>>>, m: nat)
    requires |elements| == |chans| && m < |elements| && elements[m].Some?
    requires forall k :: 0 <= k < |elements| && elements[k].None? ==> chans[k] == []
    requires forall i :: 0 <= i < |elements| && elements[i].Some? ==>
               elements[m].value.time <= elements[i].value.time
    requires forall i :: 0 <= i < m && elements[i].Some? ==>
               elements[m].value.time < elements[i].value.time
    ensures FirstMinimum(Rest(elements, chans), m)
    ensures Rest(elements, chans)[m][0] == elements[m].value
  {}

  /** Takes the first value off every stream. */
  method TakeFirsts<T>(ins: seq<seq<Timed<T>>>) returns (elements: seq<Option<Timed<T>>>, chans: seq<seq<Timed<T>>>)
    ensures |chans| == |elements| == |ins|
    ensures forall k :: 0 <= k < |ins| && elements[k].None? ==> chans[k] == []
    ensures Rest(elements, chans) == ins
  {
    chans := ins;
    elements := seq(|ins|, _ => None);
    for i := 0 to |ins|
      invariant |chans| == |elements| == |ins|
      invariant forall k :: 0 <= k < i && elements[k].None? ==> chans[k] == []
      invariant forall k :: i <= k < |ins| ==> elements[k].None? && chans[k] == ins[k]
      invariant forall k :: 0 <= k < i ==> Rest(elements, chans)[k] == ins[k]
    {
      var (e, c) := Receive(chans[i]);
      elements, chans := elements[i := e], chans[i := c];
    }
  }

  method Fuse<T>(ins: seq<seq<Timed<T>>>) returns (out: seq<Timed<T>>)
    requires ins != [] && AllOrdered(ins)
    ensures out == StableSort(Concat(ins))
  {
    hide Balanced, AllOrdered, Ordered, NotLater, FirstMinimum, Length, Concat;
    var elements, chans := TakeFirsts(ins);
    out := [];
    MergeStart(ins);
    while true
      invariant |chans| == |elements| == |ins|
      invariant forall k :: 0 <= k < |ins| && elements[k].None? ==> chans[k] == []
      invariant Merging(ins, Rest(elements, chans), out)
      decreases Length(Rest(elements, chans))
    {
      ghost var rest := Rest(elements, chans);
      var min := FindMinimum(elements);
      if elements[min].None? {
        break;
      }
      MinimumOfRest(elements, chans, min);
      MergeStep(ins, rest, out, min);
      RestAfterReceive(elements, chans, min);
      LengthDrops(rest, min, rest[min][1..]);
      out := out + [elements[min].value];
      var (e, c) := Receive(chans[min]);
      elements, chans := elements[min := e], chans[min := c];
    }
    MergeEnd(ins, Rest(elements, chans), out);
  }

  lemma MergeStart<T>(ins: seq<seq<Timed<T>>>)
    requires AllOrdered(ins)
    ensures Merging(ins, ins, [])
  {}

  // ---------- Merging in several levels ----------

  function SortEach<T>(groups: seq<seq<seq<Timed<T>>>>): (r: seq<seq<Timed<T>>>)
    ensures |r| == |groups|
    ensures forall i :: 0 <= i < |r| ==> r[i] == StableSort(Concat(groups[i]))
  {
    seq(|groups|, i requires 0 <= i < |groups| => StableSort(Concat(groups[i])))
  }

  lemma {:induction false} AtSortEach<T>(groups: seq<seq<seq<Timed<T>>>>, t: real)
    ensures At(Concat(SortEach(groups)), t) == At(Concat(Concat(groups)), t)
  {
    if groups != [] {
      var sorted := SortEach(groups);
      assert sorted[1..] == SortEach(groups[1..]);
      AtSortEach(groups[1..], t);
      ConcatAppend(groups[0], Concat(groups[1..]));
      AtConcat(sorted[0], Concat(sorted[1..]), t);
      AtConcat(Concat(groups[0]), Concat(Concat(groups[1..])), t);
      StableSortSorts(Concat(groups[0]));
    }
  }

  /** Merging group by group and then merging the groups is one stable sort of everything. */
  lemma NestedMerge<T>(groups: seq<seq<seq<Timed<T>>>>)
    ensures StableSort(Concat(SortEach(groups))) == StableSort(Concat(Concat(groups)))
  {
    var inner := Concat(SortEach(groups));
    StableSortSorts(inner);
    forall t ensures At(StableSort(inner), t) == At(Concat(Concat(groups)), t) {
      AtSortEach(groups, t);
    }
    StableSortUnique(StableSort(inner), Concat(Concat(groups)));
  }
}
