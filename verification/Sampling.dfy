/**
 The uniform distribution: sampling with or without replacement.

 The random numbers are a parameter: what is proved holds for all of them.  The
 functions on `State` say what the operations do; the class keeps the values in an
 array that a selection shuffles in place.
 */
module Sampling {
  import opened Basics

  datatype VariableType = TypeRegular | TypeOnce | TypeLoop

  /** The first `size` values are the events that were not discarded; without values they are 0, 1, ... */
  datatype State = State(rtype: VariableType, size: nat, values: Option<seq<nat>>)

  predicate Valid(s: State) {
    && (s.values.Some? ==> s.size <= |s.values.value|)
    && (s.values.None? ==> s.rtype.TypeRegular? || s.size == 0)
  }

  function Identity(n: nat): (r: seq<nat>)
    ensures |r| == n && forall i :: 0 <= i < n ==> r[i] == i
  {
    seq(n, i => i)
  }

  function NewState(size: nat, rtype: VariableType): (s: State)
    ensures Valid(s)
  {
    State(rtype, size, if rtype.TypeRegular? then None else Some(Identity(size)))
  }

  /** The events that were not discarded. */
  function Remaining(s: State): (r: seq<nat>)
    requires Valid(s)
    ensures |r| == s.size
  {
    if s.values.None? then Identity(s.size) else s.values.value[..s.size]
  }

  /** The values after the one at index was moved behind the first n. */
  function Shuffled(values: seq<nat>, index: nat, n: nat): (r: seq<nat>)
    requires index < n <= |values|
    ensures |r| == |values|
  {
    values[index := values[n - 1]][n - 1 := values[index]]
  }

  function AfterSelect(s: State, random: nat): (r: (State, Option<nat>))
    requires Valid(s)
    ensures Valid(r.0)
  {
    if s.size == 0 then (s, None)
    else
      var index := random % s.size;
      if s.rtype.TypeRegular? then (s, Some(if s.values.None? then index else s.values.value[index]))
      else
        var values := s.values.value;
        var shuffled := Shuffled(values, index, s.size);
        if s.size > 1 then (s.(values := Some(shuffled), size := s.size - 1), Some(values[index]))
        else if s.rtype.TypeOnce? then (State(TypeOnce, 0, None), Some(values[index]))
        else (s.(values := Some(shuffled), size := |shuffled|), Some(values[index]))
  }

  function CopyState(s: State, rtype: VariableType): (r: State)
    requires Valid(s)
    ensures Valid(r) && Remaining(r) == Remaining(s) && r.size == s.size && r.rtype == rtype
  {
    State(rtype, s.size, if rtype.TypeRegular? && s.values.None? then None else Some(Remaining(s)))
  }

  // ---------- One selection ----------

  /** A selection returns the event at the random place among those left; with replacement nothing changes. */
  lemma SelectsAt(s: State, random: nat)
    requires Valid(s)
    ensures var (s', event) := AfterSelect(s, random);
            && (s.size == 0 ==> event == None && s' == s)
            && (s.size > 0 ==> event == Some(Remaining(s)[random % s.size]))
            && (s.rtype.TypeRegular? ==> s' == s)
  {}

  lemma ShuffleMoves(values: seq<nat>, index: nat, n: nat)
    requires index < n <= |values|
    ensures var r := Shuffled(values, index, n);
            && multiset(r) == multiset(values)
            && multiset(r[..n - 1]) + multiset{values[index]} == multiset(values[..n])
  {
    var r := Shuffled(values, index, n);
    var w := values[..n];
    assert w == w[..n - 1] + [w[n - 1]];
    if index == n - 1 {
      assert r[..n - 1] == w[..n - 1];
    } else {
      assert r[..n - 1] == w[..n - 1][index := w[n - 1]];
    }
  }

  /**
   A selection returns an event that was not discarded and discards it; when none is left,
   a once distribution is empty and a loop distribution has all its values again.
   */
  lemma SelectDiscards(s: State, random: nat)
    requires Valid(s) && !s.rtype.TypeRegular? && s.size > 0
    ensures var (s', event) := AfterSelect(s, random);
            && event.Some? && s'.rtype == s.rtype
            && (s.size > 1 ==>
                  && s'.size == s.size - 1 && s'.values.Some?
                  && multiset(Remaining(s')) + multiset{event.value} == multiset(Remaining(s))
                  && multiset(s'.values.value) == multiset(s.values.value))
            && (s.size == 1 ==>
                  && Remaining(s) == [event.value]
                  && (s.rtype.TypeOnce? ==> s' == State(TypeOnce, 0, None))
                  && (s.rtype.TypeLoop? ==>
                        && s'.values.Some? && s'.size == |s'.values.value|
                        && multiset(s'.values.value) == multiset(s.values.value)))
  {
    ShuffleMoves(s.values.value, random % s.size, s.size);
  }

  // ---------- Many selections ----------

  /** The state and the events after a selection for each random number. */
  function Draw(s: State, randoms: seq<nat>): (r: (State, seq<Option<nat>>))
    requires Valid(s)
    ensures Valid(r.0) && |r.1| == |randoms|
    decreases |randoms|
  {
    if randoms == [] then (s, [])
    else
      var (s1, event) := AfterSelect(s, randoms[0]);
      var (s2, events) := Draw(s1, randoms[1..]);
      (s2, [event] + events)
  }

  /** The events of selections that all succeeded. */
  function Events(events: seq<Option<nat>>): (r: seq<nat>)
    requires forall i :: 0 <= i < |events| ==> events[i].Some?
    ensures |r| == |events| && forall i :: 0 <= i < |r| ==> r[i] == events[i].value
  {
    seq(|events|, i requires 0 <= i < |events| => events[i].value)
  }

  lemma EventsFirst(event: nat, events: seq<Option<nat>>)
    requires forall i :: 0 <= i < |events| ==> events[i].Some?
    ensures Events([Some(event)] + events) == [event] + Events(events)
  {}

  /** Drawing as often as there are events left returns each of them once. */
  lemma {:induction false} DrawAll(s: State, randoms: seq<nat>)
    requires Valid(s) && !s.rtype.TypeRegular? && |randoms| == s.size
    ensures var (s', events) := Draw(s, randoms);
            && (forall i :: 0 <= i < |events| ==> events[i].Some?)
            && multiset(Events(events)) == multiset(Remaining(s))
            && (s.size > 0 && s.rtype.TypeOnce? ==> s' == State(TypeOnce, 0, None))
            && (s.size > 0 && s.rtype.TypeLoop? ==>
                  && s'.rtype.TypeLoop? && s'.values.Some? && s'.size == |s'.values.value|
                  && multiset(s'.values.value) == multiset(s.values.value))
    decreases |randoms|
  {
    hide AfterSelect;
    if s.size > 0 {
      var (s1, event) := AfterSelect(s, randoms[0]);
      SelectDiscards(s, randoms[0]);
      if s.size > 1 {
        DrawAll(s1, randoms[1..]);
        EventsFirst(event.value, Draw(s1, randoms[1..]).1);
      } else {
        assert randoms[1..] == [];
        EventsFirst(event.value, []);
        assert [Some(event.value)] + [] == [Some(event.value)];
      }
    }
  }

  lemma {:induction false} DrawSplit(s: State, a: seq<nat>, b: seq<nat>)
    requires Valid(s)
    ensures Draw(s, a + b).0 == Draw(Draw(s, a).0, b).0
    ensures Draw(s, a + b).1 == Draw(s, a).1 + Draw(Draw(s, a).0, b).1
    decreases |a|
  {
    hide AfterSelect;
    if a == [] {
      assert a + b == b;
    } else {
      assert (a + b)[1..] == a[1..] + b;
      DrawSplit(AfterSelect(s, a[0]).0, a[1..], b);
    }
  }

  /** A loop distribution that has all its values. */
  ghost predicate FullLoop(s: State, events: multiset<nat>) {
    && Valid(s) && s.rtype.TypeLoop? && s.values.Some?
    && s.size == |s.values.value| && multiset(s.values.value) == events
  }

  /** Every successive block of n selections of a loop distribution of n events is a permutation of them. */
  lemma {:induction false} LoopBlocks(s: State, events: multiset<nat>, block: nat, randoms: seq<nat>)
    requires FullLoop(s, events) && s.size > 0
    requires |randoms| == (block + 1) * s.size
    ensures var drawn := Draw(s, randoms).1;
            && block * s.size <= |drawn|
            && (forall i :: 0 <= i < |drawn[block * s.size..]| ==> drawn[block * s.size..][i].Some?)
            && multiset(Events(drawn[block * s.size..])) == events
    decreases block
  {
    hide Draw, Events;
    var n := s.size;
    assert s.values.value[..n] == s.values.value;
    if block == 0 {
      DrawAll(s, randoms);
      assert Draw(s, randoms).1[0..] == Draw(s, randoms).1;
    } else {
      OneBlock(block, n);
      var first, rest := randoms[..n], randoms[n..];
      assert randoms == first + rest;
      DrawAll(s, first);
      DrawSplit(s, first, rest);
      var s1 := Draw(s, first).0;
      SameSize(s.values.value, s1.values.value);
      LoopBlocks(s1, events, block - 1, rest);
      Behind(Draw(s, first).1, Draw(s1, rest).1, (block - 1) * n);
    }
  }

  lemma OneBlock(block: nat, n: nat)
    requires block > 0
    ensures (block + 1) * n == n + block * n && block * n == n + (block - 1) * n && (block - 1) * n >= 0
  {}

  lemma Behind<T>(a: seq<T>, b: seq<T>, k: nat)
    requires k <= |b|
    ensures (a + b)[|a| + k..] == b[k..]
  {}

  lemma SameSize(a: seq<nat>, b: seq<nat>)
    requires multiset(a) == multiset(b)
    ensures |a| == |b|
  {
    assert |a| == |multiset(a)| && |b| == |multiset(b)|;
  }

  lemma {:induction false} ExhaustedForever(s: State, randoms: seq<nat>)
    requires Valid(s) && s.size == 0
    ensures Draw(s, randoms).0 == s
    ensures forall i :: 0 <= i < |randoms| ==> Draw(s, randoms).1[i].None?
    decreases |randoms|
  {
    if randoms != [] {
      ExhaustedForever(s, randoms[1..]);
    }
  }

  /** A once distribution of n events gives each event once, and then nothing for ever. */
  lemma OnceThenNothing(n: nat, randoms: seq<nat>, more: seq<nat>)
    requires |randoms| == n
    ensures var drawn := Draw(NewState(n, TypeOnce), randoms + more).1;
            && (forall i :: 0 <= i < n ==> drawn[..n][i].Some?)
            && multiset(Events(drawn[..n])) == multiset(Identity(n))
            && forall i :: n <= i < |drawn| ==> drawn[i].None?
  {
    hide Draw, Events;
    var s := NewState(n, TypeOnce);
    DrawSplit(s, randoms, more);
    DrawAll(s, randoms);
    var s1 := Draw(s, randoms).0;
    if n == 0 {
      assert randoms == [];
      ExhaustedForever(s, randoms);
    }
    ExhaustedForever(s1, more);
    assert Draw(s, randoms + more).1[..n] == Draw(s, randoms).1;
    assert s.values.value[..n] == Identity(n);
  }

  /** A selection of a once distribution moves one event from those left to those seen. */
  lemma OnceStep(s: State, random: nat, seen: seq<nat>)
    requires Valid(s) && s.rtype.TypeOnce?
    ensures var (s', event) := AfterSelect(s, random);
            && s'.rtype.TypeOnce?
            && (event.None? ==> s.size == 0 && Remaining(s) == [])
            && (event.Some? ==>
                  && s'.size < s.size
                  && multiset(seen + [event.value]) + multiset(Remaining(s')) == multiset(seen) + multiset(Remaining(s)))
  {
    if s.size > 0 {
      SelectDiscards(s, random);
    }
  }

  // ---------- The distribution ----------

  class Distribution {
    const rtype: VariableType
    var size: nat
    var values: array?<nat>

    function View(): (s: State)
      reads this, values
    {
      State(rtype, size, if values == null then None else Some(values[..]))
    }

    ghost predicate Consistent()
      reads this, values
    {
      Valid(View())
    }

    constructor (count: nat, kind: VariableType)
      ensures Consistent() && View() == NewState(count, kind)
      ensures values != null ==> fresh(values)
    {
      rtype, size := kind, count;
      if kind.TypeRegular? {
        values := null;
      } else {
        values := new nat[count](i => i);
      }
      new;
      assert values != null ==> values[..] == Identity(count);
    }

    /** Wraps values that a copy has filled. */
    constructor Of(kind: VariableType, count: nat, filled: array?<nat>)
      ensures rtype == kind && size == count && values == filled
    {
      rtype, size, values := kind, count, filled;
    }

    method Select(random: nat) returns (event: Option<nat>)
      requires Consistent()
      modifies this, values
      ensures Consistent() && (values == null || values == old(values))
      ensures (View(), event) == AfterSelect(old(View()), random)
    {
      if size == 0 {
        return None;
      }
      var index := random % size;
      var value: nat;
      if values == null {
        value := index;
      } else {
        value := values[index];
      }
      if !rtype.TypeRegular? {
        ghost var before := values[..];
        values[index] := values[size - 1];
        values[size - 1] := value;
        assert values[..] == Shuffled(before, index, size);
        size := size - 1;
        if size == 0 {
          if rtype.TypeOnce? {
            values := null;
          } else {
            size := values.Length;
          }
        }
      }
      return Some(value);
    }

    method Copy(kind: VariableType) returns (d: Distribution)
      requires Consistent()
      ensures fresh(d) && (d.values != null ==> fresh(d.values))
      ensures d.Consistent() && d.View() == CopyState(View(), kind)
    {
      if kind.TypeRegular? && values == null {
        d := new Distribution.Of(kind, size, null);
      } else {
        var filled := new nat[size];
        if values == null {
          for i := 0 to size
            invariant forall k :: 0 <= k < i ==> filled[k] == k
          {
            filled[i] := i;
          }
        } else {
          for i := 0 to size
            invariant forall k :: 0 <= k < i ==> filled[k] == values[k]
          {
            filled[i] := values[i];
          }
        }
        assert filled[..] == Remaining(View());
        d := new Distribution.Of(kind, size, filled);
      }
    }

    /** Draws a once distribution until it is exhausted. */
    static method Drain(copy: Distribution, randoms: nat -> nat, ghost left: multiset<nat>) returns (events: seq<nat>)
      requires copy.Consistent() && copy.rtype.TypeOnce? && multiset(Remaining(copy.View())) == left
      modifies copy, copy.values
      ensures multiset(events) == left
    {
      hide AfterSelect, Remaining;
      events := [];
      assert multiset(events) == multiset{};
      var drawn := 0;
      while true
        invariant copy.Consistent() && copy.rtype.TypeOnce?
        invariant copy.values == null || copy.values == old(copy.values)
        invariant multiset(events) + multiset(Remaining(copy.View())) == left
        decreases copy.size
      {
        OnceStep(copy.View(), randoms(drawn), events);
        var event := copy.Select(randoms(drawn));
        if event.None? {
          break;
        }
        events := events + [event.value];
        drawn := drawn + 1;
      }
    }

    /** Draws a once copy until it is exhausted: the events left here, each once; nothing here changes. */
    method DrainCopy(randoms: nat -> nat) returns (events: seq<nat>)
      requires Consistent()
      ensures multiset(events) == multiset(Remaining(View()))
    {
      ghost var left := multiset(Remaining(View()));
      var copy := Copy(TypeOnce);
      events := Drain(copy, randoms, left);
    }
  }
}
