/**
 The order in which a secondary triggers its interactions: the stable sort by time of the
 order in which they were decoded.  Decoding jobs finish in any order, so the question is
 what of that order shows in the run.
 */
module Triggering {
  import opened Basics
  import opened Merge
  import opened Wire
  import opened Protocol
  import opened Permutations

  /** The jobs with their times, as real numbers. */
  function Stamp(value: Float -> real, jobs: seq<Job>): (r: seq<Timed<Job>>)
    ensures |r| == |jobs| && forall i :: 0 <= i < |r| ==> r[i] == Timed(value(jobs[i].iact.time), jobs[i])
  {
    Map((j: Job) => Timed(value(j.iact.time), j), jobs)
  }

  /** The jobs in the order in which they are triggered. */
  function Triggered(value: Float -> real, jobs: seq<Job>): (r: seq<Timed<Job>>) {
    StableSort(Stamp(value, jobs))
  }

  lemma StampPermutes(value: Float -> real, a: seq<Job>, b: seq<Job>)
    requires multiset(a) == multiset(b)
    ensures multiset(Stamp(value, a)) == multiset(Stamp(value, b))
  {
    MapPermutes((j: Job) => Timed(value(j.iact.time), j), a, b);
  }

  // ---------- When the decoding order does not show ----------

  /** Jobs with the same time are the same. */
  ghost predicate NoTies(value: Float -> real, jobs: seq<Job>) {
    forall i, j :: 0 <= i < |jobs| && 0 <= j < |jobs| && value(jobs[i].iact.time) == value(jobs[j].iact.time)
      ==> jobs[i] == jobs[j]
  }

  lemma {:induction false} AtCounts<T>(s: seq<Timed<T>>, t: real, e: Timed<T>)
    ensures multiset(At(s, t))[e] == if e.time == t then multiset(s)[e] else 0
  {
    if s != [] {
      AtCounts(s[1..], t, e);
      assert s == [s[0]] + s[1..];
      AtHead(s, t);
      AtOne(s[0], t);
    }
  }

  lemma AtPermutes<T(!new)>(a: seq<Timed<T>>, b: seq<Timed<T>>, t: real)
    requires multiset(a) == multiset(b)
    ensures multiset(At(a, t)) == multiset(At(b, t))
  {
    forall e ensures multiset(At(a, t))[e] == multiset(At(b, t))[e] {
      AtCounts(a, t, e);
      AtCounts(b, t, e);
    }
  }

  lemma AllAlike<T>(a: seq<T>, b: seq<T>)
    requires multiset(a) == multiset(b)
    requires forall i, j :: 0 <= i < |a| && 0 <= j < |a| ==> a[i] == a[j]
    ensures a == b
  {
    assert |a| == |multiset(a)| && |b| == |multiset(b)|;
    forall i | 0 <= i < |b| ensures b[i] == a[i] {
      assert b[i] in multiset(b);
      assert b[i] in a;
    }
  }

  lemma SameAtEveryTime(value: Float -> real, a: seq<Job>, b: seq<Job>, t: real)
    requires multiset(a) == multiset(b) && NoTies(value, a)
    ensures At(Stamp(value, a), t) == At(Stamp(value, b), t)
  {
    var s := Stamp(value, a);
    StampPermutes(value, a, b);
    AtPermutes(s, Stamp(value, b), t);
    AtMembers(s, t);
    var at := At(s, t);
    forall i, j | 0 <= i < |at| && 0 <= j < |at| ensures at[i] == at[j] {
      assert at[i] in at && at[j] in at;
      var k :| 0 <= k < |s| && s[k] == at[i];
      var l :| 0 <= l < |s| && s[l] == at[j];
      assert a[k] == a[l];
    }
    AllAlike(at, At(Stamp(value, b), t));
  }

  /** Without ties the trigger order is the same for every decoding order. */
  lemma SameTriggered(value: Float -> real, a: seq<Job>, b: seq<Job>)
    requires multiset(a) == multiset(b) && NoTies(value, a)
    ensures Triggered(value, a) == Triggered(value, b)
  {
    hide Stamp, NoTies;
    var x, y := Triggered(value, a), Triggered(value, b);
    StableSortSorts(Stamp(value, a));
    StableSortSorts(Stamp(value, b));
    forall t ensures At(x, t) == At(y, t) {
      SameAtEveryTime(value, a, b, t);
    }
    OrderedUnique(x, y);
  }

  /** Of two jobs that lead their time, the first decoded is the first triggered. */
  lemma FirstOfTie(value: Float -> real, x: Job, rest: seq<Job>)
    ensures var t := value(x.iact.time);
            At(Triggered(value, [x] + rest), t) != [] && At(Triggered(value, [x] + rest), t)[0].item == x
  {
    var jobs := [x] + rest;
    StableSortSorts(Stamp(value, jobs));
    FirstAt(Stamp(value, jobs));
  }

  lemma Front(jobs: seq<Job>, i: nat, j: nat) returns (rest: seq<Job>)
    requires i < j < |jobs|
    ensures multiset([jobs[i]] + ([jobs[j]] + rest)) == multiset(jobs)
    ensures multiset([jobs[j]] + ([jobs[i]] + rest)) == multiset(jobs)
  {
    WithoutCounts(jobs, j);
    var others := Without(jobs, j);
    assert others[i] == jobs[i];
    WithoutCounts(others, i);
    rest := Without(others, i);
  }

  /** The trigger order is the same for every decoding order exactly when no two different jobs have the same time. */
  lemma DecodingOrderHidden(value: Float -> real, jobs: seq<Job>)
    ensures (forall other :: multiset(other) == multiset(jobs) ==> Triggered(value, other) == Triggered(value, jobs))
            <==> NoTies(value, jobs)
  {
    if NoTies(value, jobs) {
      forall other | multiset(other) == multiset(jobs) ensures Triggered(value, other) == Triggered(value, jobs) {
        SameTriggered(value, jobs, other);
      }
    } else {
      var a, b :| 0 <= a < |jobs| && 0 <= b < |jobs| && jobs[a] != jobs[b]
                  && value(jobs[a].iact.time) == value(jobs[b].iact.time);
      var i, j := if a < b then a else b, if a < b then b else a;
      var rest := Front(jobs, i, j);
      FirstOfTie(value, jobs[i], [jobs[j]] + rest);
      FirstOfTie(value, jobs[j], [jobs[i]] + rest);
      hide Triggered;
      var x, y := [jobs[i]] + ([jobs[j]] + rest), [jobs[j]] + ([jobs[i]] + rest);
      assert Triggered(value, x) != Triggered(value, y);
    }
  }

  /** Interactions that were sent in strictly increasing time are triggered as they were sent. */
  lemma TriggeredAsSent(value: Float -> real, planned: seq<Job>, done: seq<Job>)
    requires multiset(done) == multiset(planned)
    requires forall i, j :: 0 <= i < j < |planned| ==> value(planned[i].iact.time) < value(planned[j].iact.time)
    ensures Triggered(value, done) == Stamp(value, planned)
  {
    assert NoTies(value, planned);
    SameTriggered(value, planned, done);
    StableSortUnique(Stamp(value, planned), Stamp(value, planned));
  }

  // ---------- Sorting by insertion ----------

  lemma OrderedParts(a: seq<Timed<Job>>, b: seq<Timed<Job>>)
    requires Ordered(a + b)
    ensures Ordered(a) && Ordered(b)
  {
    forall i, j | 0 <= i < j < |b| ensures b[i].time <= b[j].time {
      assert (a + b)[|a| + i] == b[i] && (a + b)[|a| + j] == b[j];
    }
    forall i, j | 0 <= i < j < |a| ensures a[i].time <= a[j].time {
      assert (a + b)[i] == a[i] && (a + b)[j] == a[j];
    }
  }

  lemma OrderedBehind(a: seq<Timed<Job>>, y: Timed<Job>, b: seq<Timed<Job>>)
    requires Ordered(a) && Ordered(b)
    requires a != [] ==> a[|a| - 1].time <= y.time
    requires b != [] ==> y.time < b[0].time
    ensures Ordered(a + [y] + b)
  {}

  /** At any time, either the new job or the later ones have nothing. */
  lemma AtBehind(a: seq<Timed<Job>>, y: Timed<Job>, b: seq<Timed<Job>>, t: real)
    requires Ordered(b) && (b != [] ==> y.time < b[0].time)
    ensures At(a + [y] + b, t) == At(a + b, t) + At([y], t)
  {
    hide Ordered, At;
    AtConcat(a + [y], b, t);
    AtConcat(a, [y], t);
    AtConcat(a, b, t);
    AtOne(y, t);
    var p, q, r := At(a, t), At([y], t), At(b, t);
    if y.time == t {
      AtLater(b, t);
      assert p + q + [] == p + [] + q;
    } else {
      assert p + [] + r == p + r + [];
    }
  }

  lemma StampParts(value: Float -> real, s: seq<Job>, x: Job, k: nat)
    requires k <= |s|
    ensures Stamp(value, s) == Stamp(value, s[..k]) + Stamp(value, s[k..])
    ensures Stamp(value, s[..k] + [x] + s[k..]) ==
            Stamp(value, s[..k]) + [Timed(value(x.iact.time), x)] + Stamp(value, s[k..])
    ensures Stamp(value, [x]) == [Timed(value(x.iact.time), x)]
    ensures multiset(s[..k] + [x] + s[k..]) == multiset(s) + multiset{x}
  {
    assert s == s[..k] + s[k..];
  }

  /** Inserting behind everything that is not later keeps the order, and the order of equal times. */
  lemma InsertBehind(value: Float -> real, s: seq<Job>, x: Job, k: nat)
    requires k <= |s| && Ordered(Stamp(value, s))
    requires k > 0 ==> value(s[k - 1].iact.time) <= value(x.iact.time)
    requires k < |s| ==> value(x.iact.time) < value(s[k].iact.time)
    ensures var r := s[..k] + [x] + s[k..];
            && Ordered(Stamp(value, r)) && multiset(r) == multiset(s) + multiset{x}
            && forall t :: At(Stamp(value, r), t) == At(Stamp(value, s), t) + At(Stamp(value, [x]), t)
  {
    var y := Timed(value(x.iact.time), x);
    var front, back := Stamp(value, s[..k]), Stamp(value, s[k..]);
    StampParts(value, s, x, k);
    hide Stamp, Ordered;
    OrderedParts(front, back);
    OrderedBehind(front, y, back);
    forall t ensures At(front + [y] + back, t) == At(front + back, t) + At([y], t) {
      AtBehind(front, y, back, t);
    }
  }

  /** Sorts by insertion; jobs of the same time keep their order. */
  method SortJobs(value: Float -> real, jobs: seq<Job>) returns (sorted: seq<Job>)
    ensures Ordered(Stamp(value, sorted)) && multiset(sorted) == multiset(jobs)
    ensures forall t :: At(Stamp(value, sorted), t) == At(Stamp(value, jobs), t)
    ensures Stamp(value, sorted) == Triggered(value, jobs)
    ensures forall i, j :: 0 <= i < j < |sorted| ==> value(sorted[i].iact.time) <= value(sorted[j].iact.time)
  {
    sorted := [];
    assert jobs[..0] == [];
    for i := 0 to |jobs|
      invariant |sorted| == i && Ordered(Stamp(value, sorted)) && multiset(sorted) == multiset(jobs[..i])
      invariant forall t :: At(Stamp(value, sorted), t) == At(Stamp(value, jobs[..i]), t)
    {
      var x := jobs[i];
      var k := i;
      while k > 0 && value(x.iact.time) < value(sorted[k - 1].iact.time)
        invariant 0 <= k <= i
        invariant k < i ==> value(x.iact.time) < value(sorted[k].iact.time)
      {
        k := k - 1;
      }
      InsertBehind(value, sorted, x, k);
      StampMore(value, jobs, i);
      assert jobs[..i + 1] == jobs[..i] + [x];
      sorted := sorted[..k] + [x] + sorted[k..];
    }
    assert jobs[..|jobs|] == jobs;
    StableSortUnique(Stamp(value, sorted), Stamp(value, jobs));
    InOrder(value, sorted);
  }

  lemma InOrder(value: Float -> real, jobs: seq<Job>)
    requires Ordered(Stamp(value, jobs))
    ensures forall i, j :: 0 <= i < j < |jobs| ==> value(jobs[i].iact.time) <= value(jobs[j].iact.time)
  {
    var s := Stamp(value, jobs);
    forall i, j | 0 <= i < j < |jobs| ensures value(jobs[i].iact.time) <= value(jobs[j].iact.time) {
      assert s[i].time <= s[j].time;
    }
  }

  lemma StampMore(value: Float -> real, jobs: seq<Job>, i: nat)
    requires i < |jobs|
    ensures forall t :: At(Stamp(value, jobs[..i + 1]), t) ==
                        At(Stamp(value, jobs[..i]), t) + At(Stamp(value, [jobs[i]]), t)
  {
    assert Stamp(value, jobs[..i + 1]) == Stamp(value, jobs[..i]) + Stamp(value, [jobs[i]]);
    forall t ensures At(Stamp(value, jobs[..i + 1]), t) ==
                     At(Stamp(value, jobs[..i]), t) + At(Stamp(value, [jobs[i]]), t)
    {
      AtConcat(Stamp(value, jobs[..i]), Stamp(value, [jobs[i]]), t);
    }
  }
}
