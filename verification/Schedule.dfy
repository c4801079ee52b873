/**
 The timed load of one client behaviour: a rate map turned into send times.

 A load maps a time in seconds to the rate, in interactions per second, that
 holds from that time up to the next key.  `Flatten` walks the keys in order and
 carries the fraction of an interaction that is already due across each rate
 change.  The reference it is proved against is the integral of the step load:
 the k-th interaction leaves at the earliest time at which the integral is k.
 */
module Schedule {
  import opened Basics

  type Load = map<real, real>

  /** Keys and rates are not negative. */
  ghost predicate ValidLoad(load: Load) {
    forall k :: k in load ==> k >= 0.0 && load[k] >= 0.0
  }

  ghost predicate Increasing(s: seq<real>) {
    forall i, j :: 0 <= i < j < |s| ==> s[i] < s[j]
  }

  ghost predicate Keyed(times: seq<real>, load: Load) {
    forall i :: 0 <= i < |times| ==> times[i] in load
  }

  // ---------- The keys in order ----------

  lemma {:induction false} MaximumExists(keys: set<real>)
    requires keys != {}
    ensures exists m :: m in keys && forall k :: k in keys ==> k <= m
  {
    var m := Member(keys);
    var rest := keys - {m};
    if rest == {} {
      assert keys == {m};
    } else {
      MaximumExists(rest);
      var r :| r in rest && forall k :: k in rest ==> k <= r;
      var top := if r > m then r else m;
      forall k | k in keys ensures k <= top {
        assert k == m || k in rest;
      }
    }
  }

  /** The keys in increasing order. */
  ghost function SortedKeys(keys: set<real>): (s: seq<real>)
    ensures Increasing(s)
    ensures forall k :: k in s <==> k in keys
  {
    if keys == {} then []
    else
      MaximumExists(keys);
      var m :| m in keys && forall k :: k in keys ==> k <= m;
      SortedKeys(keys - {m}) + [m]
  }

  lemma {:induction false} IncreasingUnique(s: seq<real>, t: seq<real>)
    requires Increasing(s) && Increasing(t)
    requires forall k :: k in s <==> k in t
    ensures s == t
  {
    if s != [] && t != [] {
      SameLast(s, t);
      var s', t' := s[..|s| - 1], t[..|t| - 1];
      forall k ensures k in s' <==> k in t' {
        LastOut(s, k);
        LastOut(t, k);
      }
      IncreasingUnique(s', t');
      assert s == s' + [s[|s| - 1]] && t == t' + [t[|t| - 1]];
    } else {
      HasElement(s);
      HasElement(t);
    }
  }

  lemma HasElement(s: seq<real>)
    ensures s == [] || exists k :: k in s
  {
    if s != [] {
      var k := s[0];
      assert k in s;
    }
  }

  lemma LastOut(s: seq<real>, k: real)
    requires Increasing(s) && s != []
    ensures k in s[..|s| - 1] <==> k in s && k != s[|s| - 1]
  {
    assert s == s[..|s| - 1] + [s[|s| - 1]];
  }

  lemma SameLast(s: seq<real>, t: seq<real>)
    requires Increasing(s) && Increasing(t) && s != [] && t != []
    requires forall k :: k in s <==> k in t
    ensures s[|s| - 1] == t[|t| - 1]
  {
    var a, b := s[|s| - 1], t[|t| - 1];
    assert a in s && b in t;
    assert a in t && b in s;
  }

  /** The keys, collected in an arbitrary order and sorted. */
  method SortKeys(keys: set<real>) returns (times: seq<real>)
    ensures times == SortedKeys(keys)
  {
    times := SortSet(keys, (k: real) => k);
    IncreasingUnique(times, SortedKeys(keys));
  }

  // ---------- The integral of the step load ----------

  /** What a constant rate completes over a span of time. */
  function Area(rate: real, span: real): (r: real) {
    rate * span
  }

  lemma AreaAdd(rate: real, x: real, y: real)
    ensures Area(rate, x + y) == Area(rate, x) + Area(rate, y)
    ensures Area(rate, 0.0) == 0.0
  {}

  lemma AreaMonotone(rate: real, x: real, y: real)
    requires rate >= 0.0 && x <= y
    ensures Area(rate, x) <= Area(rate, y)
  {}

  lemma AreaStrict(rate: real, x: real, y: real)
    requires rate > 0.0
    ensures x < y <==> Area(rate, x) < Area(rate, y)
  {
    assert rate * (y - x) > 0.0 <==> y - x > 0.0;
  }

  lemma AreaOfZero(span: real)
    ensures Area(0.0, span) == 0.0
  {}

  /** The length of the part of [a, b] that lies before t. */
  function Overlap(a: real, b: real, t: real): (r: real) {
    if t <= a then 0.0 else if t <= b then t - a else b - a
  }

  /** The integral up to t of the rates between the given keys. */
  ghost function Work(times: seq<real>, load: Load, t: real): (r: real)
    requires Keyed(times, load)
  {
    if |times| < 2 then 0.0
    else
      var a, b := times[|times| - 2], times[|times| - 1];
      Work(times[..|times| - 1], load, t) + Area(load[a], Overlap(a, b, t))
  }

  lemma {:induction false} WorkMonotone(times: seq<real>, load: Load, t: real, u: real)
    requires ValidLoad(load) && Increasing(times)
    requires Keyed(times, load)
    requires t <= u
    ensures Work(times, load, t) <= Work(times, load, u)
  {
    hide Area;
    if |times| >= 2 {
      var a, b := times[|times| - 2], times[|times| - 1];
      assert a in load && a < b;
      WorkMonotone(times[..|times| - 1], load, t, u);
      AreaMonotone(load[a], Overlap(a, b, t), Overlap(a, b, u));
    }
  }

  /** Past the last key nothing is added. */
  lemma {:induction false} WorkSaturates(times: seq<real>, load: Load, t: real)
    requires Increasing(times) && times != []
    requires Keyed(times, load)
    requires times[|times| - 1] <= t
    ensures Work(times, load, t) == Work(times, load, times[|times| - 1])
  {
    hide Area;
    if |times| >= 2 {
      var b := times[|times| - 1];
      WorkSaturates(times[..|times| - 1], load, t);
      WorkSaturates(times[..|times| - 1], load, b);
    }
  }

  /** A further key adds the area of the segment that ends there. */
  lemma WorkExtends(times: seq<real>, load: Load, b: real, t: real)
    requires Keyed(times + [b], load) && Keyed(times, load)
    requires times != [] && times[|times| - 1] < b
    ensures Work(times + [b], load, t) ==
            Work(times, load, t) + Area(load[times[|times| - 1]], Overlap(times[|times| - 1], b, t))
  {
    hide Area;
    assert forall i :: 0 <= i < |times| ==> times[i] == (times + [b])[i];
    assert (times + [b])[..|times|] == times;
  }

  // ---------- What a paced schedule is ----------

  /** The first instant at which the work is v. */
  ghost predicate FirstReaches(times: seq<real>, load: Load, t: real, v: real)
    requires Keyed(times, load)
  {
    Work(times, load, t) == v && forall u :: u < t ==> Work(times, load, u) < v
  }

  ghost predicate Reaches(times: seq<real>, load: Load, out: seq<real>)
    requires Keyed(times, load)
  {
    forall k :: 0 <= k < |out| ==> FirstReaches(times, load, out[k], (k + 1) as real)
  }

  /** The whole work of a load: its integral up to the last key. */
  ghost function Total(load: Load): (r: real) {
    var times := SortedKeys(load.Keys);
    if times == [] then 0.0 else Work(times, load, times[|times| - 1])
  }

  ghost predicate Paced(load: Load, out: seq<real>) {
    var times := SortedKeys(load.Keys);
    && Increasing(out)
    && Reaches(times, load, out)
    && |out| as real <= Total(load) < |out| as real + 1.0
  }

  /** A load has at most one paced schedule. */
  lemma PacedUnique(load: Load, a: seq<real>, b: seq<real>)
    requires Paced(load, a) && Paced(load, b)
    ensures a == b
  {
    var times := SortedKeys(load.Keys);
    assert |a| == |b|;
    forall k | 0 <= k < |a| ensures a[k] == b[k] {
      assert FirstReaches(times, load, a[k], (k + 1) as real);
      assert FirstReaches(times, load, b[k], (k + 1) as real);
    }
  }

  // ---------- flatten ----------

  lemma WaitCompletes(value: real, tick: real, done: real, wait: real)
    requires value != 0.0 && tick == 1.0 / value && wait == (1.0 - done) * tick
    ensures Area(value, wait) == 1.0 - done
  {
    assert value * tick == 1.0;
    calc {
      value * ((1.0 - done) * tick);
      (value * tick) * (1.0 - done);
    }
  }

  lemma TicksDone(value: real, tick: real, d: real)
    requires value != 0.0 && tick == 1.0 / value
    ensures tick != 0.0 && d / tick == Area(value, d)
  {
    assert value * tick == 1.0;
    assert (value * d) * tick == d * (value * tick);
  }

  /** What was reached before the last key stays reached when a key is added. */
  lemma ReachesExtends(times: seq<real>, load: Load, b: real, out: seq<real>)
    requires Keyed(times + [b], load) && Keyed(times, load)
    requires times != [] && times[|times| - 1] < b
    requires forall k :: 0 <= k < |out| ==> out[k] <= times[|times| - 1]
    requires Reaches(times, load, out)
    ensures Reaches(times + [b], load, out)
  {
    hide Work, Area;
    var a := times[|times| - 1];
    AreaAdd(load[a], 0.0, 0.0);
    forall k | 0 <= k < |out|
      ensures FirstReaches(times + [b], load, out[k], (k + 1) as real)
    {
      assert FirstReaches(times, load, out[k], (k + 1) as real);
      WorkExtends(times, load, b, out[k]);
      forall u | u < out[k]
        ensures Work(times + [b], load, u) < (k + 1) as real
      {
        WorkExtends(times, load, b, u);
      }
    }
  }

  /** Work inside the segment that starts at the last key of `times`. */
  lemma WorkInside(times: seq<real>, load: Load, b: real, clock: real, t: real)
    requires Keyed(times + [b], load) && Keyed(times, load)
    requires times != [] && times[|times| - 1] <= clock <= t <= b
    requires times[|times| - 1] < b
    requires Increasing(times)
    ensures Work(times + [b], load, t) ==
            Work(times + [b], load, clock) + Area(load[times[|times| - 1]], t - clock)
  {
    hide Work, Area;
    var a := times[|times| - 1];
    assert forall i :: 0 <= i < |times| ==> times[i] == (times + [b])[i];
    WorkExtends(times, load, b, t);
    WorkExtends(times, load, b, clock);
    WorkSaturates(times, load, t);
    WorkSaturates(times, load, clock);
    AreaAdd(load[a], clock - a, t - clock);
    assert (clock - a) + (t - clock) == t - a;
  }

  /** Emitting after the wait is emitting at the first instant of the next unit of work. */
  lemma EmissionIsFirst(times: seq<real>, load: Load, b: real, clock: real, done: real, wait: real, n: nat)
    requires ValidLoad(load) && Increasing(times + [b])
    requires Keyed(times + [b], load) && Keyed(times, load)
    requires times != [] && times[|times| - 1] <= clock <= b
    requires load[times[|times| - 1]] > 0.0 && done < 1.0
    requires Work(times + [b], load, clock) == n as real + done
    requires Area(load[times[|times| - 1]], wait) == 1.0 - done
    requires clock + wait <= b
    ensures 0.0 < wait
    ensures FirstReaches(times + [b], load, clock + wait, (n + 1) as real)
  {
    hide Work, Area;
    var value := load[times[|times| - 1]];
    assert times[|times| - 1] < b && Increasing(times) by {
      var all := times + [b];
      assert all[|times| - 1] < all[|times|];
      assert forall i :: 0 <= i < |times| ==> times[i] == all[i];
    }
    AreaAdd(value, 0.0, 0.0);
    AreaStrict(value, 0.0, wait);
    WorkInside(times, load, b, clock, clock + wait);
    forall u | u < clock + wait
      ensures Work(times + [b], load, u) < (n + 1) as real
    {
      if u <= clock {
        WorkMonotone(times + [b], load, u, clock);
      } else {
        WorkInside(times, load, b, clock, u);
        AreaStrict(value, u - clock, wait);
      }
    }
  }

  /** The state between two keys: what was sent so far and the fraction that is due. */
  ghost predicate Carried(times: seq<real>, load: Load, done: real, out: seq<real>) {
    && Keyed(times, load)
    && 0.0 <= done < 1.0
    && Increasing(out)
    && Reaches(times, load, out)
    && (times == [] ==> done == 0.0 && out == [])
    && (times != [] ==>
          var key := times[|times| - 1];
          && (forall k :: 0 <= k < |out| ==> out[k] <= key)
          && Work(times, load, key) == |out| as real + done)
  }

  lemma FirstKey(load: Load, next: real)
    requires next in load
    ensures Carried([next], load, 0.0, [])
  {}

  /** A segment of rate 0 sends nothing. */
  lemma IdleSegment(before: seq<real>, load: Load, next: real, done: real, out: seq<real>)
    requires Increasing(before) && before != [] && before[|before| - 1] < next && next in load
    requires Carried(before, load, done, out)
    requires load[before[|before| - 1]] == 0.0
    ensures Carried(before + [next], load, done, out)
  {
    hide Area, Work, FirstReaches;
    WorkExtends(before, load, next, next);
    WorkSaturates(before, load, next);
    AreaOfZero(next - before[|before| - 1]);
    ReachesExtends(before, load, next, out);
  }

  lemma SegmentStart(before: seq<real>, load: Load, next: real, done: real, out: seq<real>)
    requires before != [] && before[|before| - 1] < next && next in load
    requires Carried(before, load, done, out)
    ensures Reaches(before + [next], load, out)
    ensures Work(before + [next], load, before[|before| - 1]) == |out| as real + done
  {
    hide Area, Work, FirstReaches;
    AreaAdd(load[before[|before| - 1]], 0.0, 0.0);
    WorkExtends(before, load, next, before[|before| - 1]);
    ReachesExtends(before, load, next, out);
  }

  /** The sends between two keys; `done` is the fraction that carries over. */
  method Segment(ghost before: seq<real>, load: Load, key: real, next: real, value: real, done0: real, out0: seq<real>)
    returns (done: real, out: seq<real>)
    requires ValidLoad(load) && Increasing(before + [next]) && Increasing(before)
    requires before != [] && next in load && Carried(before, load, done0, out0)
    requires key == before[|before| - 1] < next && value == load[key] && value > 0.0
    ensures Carried(before + [next], load, done, out)
  {
    hide Work, Area, FirstReaches;
    done, out := done0, out0;
    var tick, clock := 1.0 / value, key;
    SegmentStart(before, load, next, done, out);
    while true
      invariant key <= clock <= next
      invariant 0.0 <= done < 1.0
      invariant Increasing(out) && forall k :: 0 <= k < |out| ==> out[k] <= clock
      invariant Reaches(before + [next], load, out)
      invariant Work(before + [next], load, clock) == |out| as real + done
      decreases done + Area(value, next - clock)
    {
      var wait := (1.0 - done) * tick;
      WaitCompletes(value, tick, done, wait);
      if clock + wait <= next {
        EmissionIsFirst(before, load, next, clock, done, wait, |out|);
        WorkInside(before, load, next, clock, clock + wait);
        AreaAdd(value, wait, next - (clock + wait));
        assert wait + (next - (clock + wait)) == next - clock;
        AreaMonotone(value, 0.0, next - (clock + wait));
        done := 0.0;
        clock := clock + wait;
        out := out + [clock];
      } else {
        TicksDone(value, tick, next - clock);
        AreaStrict(value, next - clock, wait);
        AreaAdd(value, 0.0, 0.0);
        AreaMonotone(value, 0.0, next - clock);
        WorkInside(before, load, next, clock, next);
        done := done + (next - clock) / tick;
        clock := next;
        break;
      }
    }
  }

  /** The walk over the keys in order. */
  method Walk(load: Load, times: seq<real>) returns (done: real, out: seq<real>)
    requires ValidLoad(load) && Increasing(times) && Keyed(times, load)
    ensures Carried(times, load, done, out)
  {
    hide Work, Area, Reaches;
    var key, value := 0.0, 0.0;
    done, out := 0.0, [];
    NothingCarried(load);
    var i := 0;
    while i < |times|
      invariant 0 <= i <= |times|
      invariant i == 0 ==> key == value == 0.0
      invariant i > 0 ==> key == times[i - 1] && value == load[key]
      invariant Carried(times[..i], load, done, out)
    {
      ghost var before := times[..i];
      assert times[..i + 1] == before + [times[i]];
      if times[i] != key && value != 0.0 {
        done, out := Segment(before, load, key, times[i], value, done, out);
      } else if i > 0 {
        IdleSegment(before, load, times[i], done, out);
      } else {
        FirstKey(load, times[0]);
        assert before + [times[i]] == [times[0]];
      }
      key := times[i];
      value := load[key];
      i := i + 1;
    }
    assert times[..i] == times;
  }

  method Flatten(load: Load) returns (out: seq<real>)
    requires ValidLoad(load)
    ensures Paced(load, out)
    ensures |out| == Total(load).Floor
  {
    hide Work, Area, Reaches;
    var times := SortKeys(load.Keys);
    var done;
    done, out := Walk(load, times);
  }

  lemma NothingCarried(load: Load)
    ensures Carried([], load, 0.0, [])
  {}
}
