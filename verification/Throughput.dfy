/**
 The event log of a worker and the throughput it reports.

 The reported throughput of a second is a sum that is kept up to date as a window slides
 over the commits of each second; the reference counts the transactions whose commit
 falls inside the window.  Floating-point results are modelled as reals.
 */
module Throughput {
  import opened Basics

  /** Submit and commit times in milliseconds; negative when they never happened. */
  datatype Stat = Stat(submit: int, commit: int)

  type Stats = map<int, Stat>

  /** A throughput that is not a number, 0 divided by 0, is None. */
  datatype Results = Results(
    latencies: seq<real>, success: nat, fail: nat, perSecond: seq<Option<real>>, throughput: real)

  // ---------- The reference ----------

  predicate Successful(s: Stat) {
    s.submit >= 0 && s.commit >= 0
  }

  /** The second of a commit. */
  function Second(s: Stat): (r: int)
    requires s.commit >= 0
    ensures 1000 * r <= s.commit < 1000 * (r + 1)
  {
    s.commit / 1000
  }

  function Latency(s: Stat): (r: real) {
    (s.commit - s.submit) as real
  }

  /** Of some transactions, those that were submitted and committed. */
  ghost function Succeeded(stats: Stats, keys: set<int>): (r: set<int>) {
    set i | i in keys && i in stats && Successful(stats[i])
  }

  /** Of some transactions, those that succeeded in the seconds from lo up to hi. */
  ghost function Between(stats: Stats, keys: set<int>, lo: int, hi: int): (r: set<int>)
  {
    set i | i in keys && i in stats && Successful(stats[i]) && lo <= Second(stats[i]) < hi
  }

  /** The number of transactions that committed in the seconds from lo up to hi. */
  ghost function Commits(stats: Stats, lo: int, hi: int): (n: nat) {
    |Between(stats, stats.Keys, lo, hi)|
  }

  /** Of some transactions, those that succeeded and committed so many milliseconds after their submission. */
  ghost function WithLatency(stats: Stats, keys: set<int>, l: real): (r: set<int>) {
    set i | i in keys && i in stats && Successful(stats[i]) && stats[i].submit as real + l == stats[i].commit as real
  }

  /** All the commits fall in the first n seconds, and the last of these has one unless it is the first. */
  ghost predicate Spans(stats: Stats, keys: set<int>, n: nat) {
    && n >= 1
    && (forall i :: i in Succeeded(stats, keys) ==> Second(stats[i]) < n)
    && (n > 1 ==> exists i :: i in Succeeded(stats, keys) && Second(stats[i]) == n - 1)
  }

  /** The number of seconds over which the throughput of second i is taken. */
  function Width(window: nat, i: nat): (w: nat)
    ensures w <= i + 1 && w <= window && (w == i + 1 || w == window)
  {
    if i >= window then window else i + 1
  }

  lemma CommitsSplit(stats: Stats, lo: int, mid: int, hi: int)
    requires lo <= mid <= hi
    ensures Commits(stats, lo, hi) == Commits(stats, lo, mid) + Commits(stats, mid, hi)
  {
    var keys := stats.Keys;
    var a, b := Between(stats, keys, lo, mid), Between(stats, keys, mid, hi);
    assert a !! b;
    assert Between(stats, keys, lo, hi) == a + b;
  }

  // ---------- One more transaction ----------

  lemma SucceededStep(stats: Stats, keys: set<int>, k: int)
    requires k !in keys && k in stats
    ensures Succeeded(stats, keys + {k}) ==
            Succeeded(stats, keys) + if Successful(stats[k]) then {k} else {}
    ensures |Succeeded(stats, keys + {k})| ==
            |Succeeded(stats, keys)| + if Successful(stats[k]) then 1 else 0
  {
    assert Succeeded(stats, keys + {k}) ==
           Succeeded(stats, keys) + if Successful(stats[k]) then {k} else {};
  }

  lemma BetweenStep(stats: Stats, keys: set<int>, k: int, lo: int, hi: int)
    requires k !in keys && k in stats
    ensures |Between(stats, keys + {k}, lo, hi)| == |Between(stats, keys, lo, hi)| +
            if Successful(stats[k]) && lo <= Second(stats[k]) < hi then 1 else 0
  {
    assert Between(stats, keys + {k}, lo, hi) == Between(stats, keys, lo, hi) +
           if Successful(stats[k]) && lo <= Second(stats[k]) < hi then {k} else {};
  }

  lemma WithLatencyStep(stats: Stats, keys: set<int>, k: int, l: real)
    requires k !in keys && k in stats
    ensures |WithLatency(stats, keys + {k}, l)| == |WithLatency(stats, keys, l)| +
            if Successful(stats[k]) && Latency(stats[k]) == l then 1 else 0
  {
    assert WithLatency(stats, keys + {k}, l) == WithLatency(stats, keys, l) +
           if Successful(stats[k]) && Latency(stats[k]) == l then {k} else {};
  }

  /** Each latency occurs once for every transaction that has it. */
  ghost predicate LatenciesOf(stats: Stats, keys: set<int>, latencies: seq<real>) {
    forall l :: multiset(latencies)[l] == |WithLatency(stats, keys, l)|
  }

  lemma LatenciesStep(stats: Stats, keys: set<int>, k: int, latencies: seq<real>)
    requires k !in keys && k in stats && LatenciesOf(stats, keys, latencies)
    ensures LatenciesOf(stats, keys + {k},
                        if Successful(stats[k]) then latencies + [Latency(stats[k])] else latencies)
  {
    forall l ensures multiset(if Successful(stats[k]) then latencies + [Latency(stats[k])] else latencies)[l]
                     == |WithLatency(stats, keys + {k}, l)|
    {
      WithLatencyStep(stats, keys, k, l);
    }
  }

  lemma SpansStep(stats: Stats, keys: set<int>, k: int, n: nat)
    requires k !in keys && k in stats && Spans(stats, keys, n)
    ensures Spans(stats, keys + {k},
                  if Successful(stats[k]) && Second(stats[k]) >= n then Second(stats[k]) + 1 else n)
  {
    SucceededStep(stats, keys, k);
  }

  // ---------- The loops of Format ----------

  /** What the first loop has counted of some transactions. */
  ghost predicate Tallied(stats: Stats, seen: set<int>, latencies: seq<real>, success: nat, fail: nat, maxCommit: nat) {
    && success == |Succeeded(stats, seen)| && success + fail == |seen|
    && LatenciesOf(stats, seen, latencies)
    && Spans(stats, seen, maxCommit + 1)
  }

  lemma TallyStep(stats: Stats, seen: set<int>, k: int, latencies: seq<real>, success: nat, fail: nat, maxCommit: nat)
    requires Tallied(stats, seen, latencies, success, fail, maxCommit) && k !in seen && k in stats
    ensures var s := stats[k];
            if Successful(s) then
              var m := Second(s);
              0 <= m && Tallied(stats, seen + {k}, latencies + [Latency(s)], success + 1, fail,
                                if m > maxCommit then m else maxCommit)
            else Tallied(stats, seen + {k}, latencies, success, fail + 1, maxCommit)
  {
    SucceededStep(stats, seen, k);
    LatenciesStep(stats, seen, k, latencies);
    SpansStep(stats, seen, k, maxCommit + 1);
    assert |seen + {k}| == |seen| + 1;
    hide LatenciesOf, Spans, Succeeded, Latency;
  }

  /** Separates the transactions that succeeded from those that failed, in any order. */
  method Tally(stats: Stats) returns (latencies: seq<real>, success: nat, fail: nat, maxCommit: nat)
    ensures success == |Succeeded(stats, stats.Keys)| && success + fail == |stats|
    ensures LatenciesOf(stats, stats.Keys, latencies)
    ensures Spans(stats, stats.Keys, maxCommit + 1)
  {
    hide Tallied, LatenciesOf, Spans, Succeeded, Latency, Second;
    latencies, success, fail, maxCommit := [], 0, 0, 0;
    var rest := stats.Keys;
    TallyStarts(stats);
    assert stats.Keys - rest == {};
    while rest != {}
      invariant rest <= stats.Keys && Tallied(stats, stats.Keys - rest, latencies, success, fail, maxCommit)
      decreases rest
    {
      ghost var some := Member(rest);
      var k :| k in rest;
      TallyStep(stats, stats.Keys - rest, k, latencies, success, fail, maxCommit);
      assert stats.Keys - rest + {k} == stats.Keys - (rest - {k});
      rest := rest - {k};
      var s := stats[k];
      if s.submit >= 0 && s.commit >= 0 {
        latencies := latencies + [Latency(s)];
        success := success + 1;
        if Second(s) > maxCommit {
          maxCommit := Second(s);
        }
      } else {
        fail := fail + 1;
      }
    }
    assert stats.Keys - rest == stats.Keys;
    TallyEnds(stats, latencies, success, fail, maxCommit);
  }

  lemma TallyStarts(stats: Stats)
    ensures Tallied(stats, {}, [], 0, 0, 0)
  {
    NothingSeen(stats);
  }

  lemma TallyEnds(stats: Stats, latencies: seq<real>, success: nat, fail: nat, maxCommit: nat)
    requires Tallied(stats, stats.Keys, latencies, success, fail, maxCommit)
    ensures success == |Succeeded(stats, stats.Keys)| && success + fail == |stats|
    ensures LatenciesOf(stats, stats.Keys, latencies)
    ensures Spans(stats, stats.Keys, maxCommit + 1)
  {}

  lemma NothingSeen(stats: Stats)
    ensures Succeeded(stats, {}) == {} && LatenciesOf(stats, {}, []) && Spans(stats, {}, 1)
  {
    forall l ensures |WithLatency(stats, {}, l)| == 0 {
      assert WithLatency(stats, {}, l) == {};
    }
  }

  /** The commits of every second. */
  ghost predicate PerSecond(stats: Stats, keys: set<int>, counts: seq<int>) {
    forall j :: 0 <= j < |counts| ==> counts[j] == |Between(stats, keys, j, j + 1)|
  }

  lemma PerSecondStep(stats: Stats, keys: set<int>, k: int, counts: seq<int>)
    requires k !in keys && k in stats && PerSecond(stats, keys, counts)
    requires Successful(stats[k]) ==> Second(stats[k]) < |counts|
    ensures PerSecond(stats, keys + {k},
                      if Successful(stats[k]) then counts[Second(stats[k]) := counts[Second(stats[k])] + 1]
                      else counts)
  {
    forall j | 0 <= j < |counts|
      ensures |Between(stats, keys + {k}, j, j + 1)| ==
              counts[j] + if Successful(stats[k]) && Second(stats[k]) == j then 1 else 0
    {
      BetweenStep(stats, keys, k, j, j + 1);
    }
  }

  /** Counts the commits of every second. */
  method Histogram(stats: Stats, maxCommit: nat) returns (counts: array<int>)
    requires Spans(stats, stats.Keys, maxCommit + 1)
    ensures fresh(counts) && counts.Length == maxCommit + 1
    ensures PerSecond(stats, stats.Keys, counts[..])
  {
    counts := new int[maxCommit + 1](_ => 0);
    var rest := stats.Keys;
    AllZero(stats, counts[..]);
    assert stats.Keys - rest == {};
    hide PerSecond, Spans, Second;
    while rest != {}
      invariant rest <= stats.Keys && PerSecond(stats, stats.Keys - rest, counts[..])
      decreases rest
    {
      ghost var some := Member(rest);
      var k :| k in rest;
      InSpan(stats, k, maxCommit + 1);
      ghost var was := counts[..];
      PerSecondStep(stats, stats.Keys - rest, k, was);
      assert stats.Keys - rest + {k} == stats.Keys - (rest - {k});
      rest := rest - {k};
      var s := stats[k];
      if s.submit >= 0 && s.commit >= 0 {
        var j := Second(s);
        counts[j] := counts[j] + 1;
        assert counts[..] == was[j := was[j] + 1];
      }
    }
    assert stats.Keys - rest == stats.Keys;
  }

  lemma AllZero(stats: Stats, counts: seq<int>)
    requires forall j :: 0 <= j < |counts| ==> counts[j] == 0
    ensures PerSecond(stats, {}, counts)
  {
    forall j | 0 <= j < |counts| ensures counts[j] == |Between(stats, {}, j, j + 1)| {
      assert Between(stats, {}, j, j + 1) == {};
    }
  }

  lemma InSpan(stats: Stats, k: int, n: nat)
    requires k in stats && Spans(stats, stats.Keys, n)
    ensures Successful(stats[k]) ==> 0 <= Second(stats[k]) < n
  {
    if Successful(stats[k]) {
      assert k in Succeeded(stats, stats.Keys);
    }
  }

  /** The throughput of second i: the commits of the window that ends with it, per second. */
  ghost function Rate(stats: Stats, window: nat, i: nat): (r: Option<real>) {
    var w := Width(window, i);
    if w == 0 then None else Some(Commits(stats, i + 1 - w, i + 1) as real / w as real)
  }

  /** The first second of the window before second i. */
  function From(window: nat, i: nat): (r: nat) {
    if i >= window then i - window else 0
  }

  /** The sum after second i is that of the window ending with it. */
  lemma Slides(stats: Stats, window: nat, i: nat)
    ensures Commits(stats, From(window, i), i) + Commits(stats, i, i + 1) ==
            Commits(stats, i + 1 - Width(window, i), i + 1) +
            if i >= window then Commits(stats, i - window, i - window + 1) else 0
  {
    CommitsSplit(stats, From(window, i), i, i + 1);
    if i >= window {
      CommitsSplit(stats, From(window, i), From(window, i) + 1, i + 1);
    }
  }

  /** One second of the window: the commits seen and the throughput. */
  method Slide(ghost stats: Stats, counts: array<int>, window: nat, i: nat, before: int)
    returns (txsum: int, thr: Option<real>)
    requires i < counts.Length && PerSecond(stats, stats.Keys, counts[..])
    requires before == Commits(stats, From(window, i), i)
    ensures txsum == Commits(stats, From(window, i + 1), i + 1)
    ensures thr == Rate(stats, window, i)
  {
    Counted(stats, counts[..], i);
    Slides(stats, window, i);
    hide Commits;
    txsum := before + counts[i];
    if i >= window {
      Counted(stats, counts[..], i - window);
      txsum := txsum - counts[i - window];
      thr := if window == 0 then None else Some(txsum as real / window as real);
    } else {
      thr := Some(txsum as real / (i + 1) as real);
    }
  }

  /** Slides the window over the seconds; a negative window runs past the last second and ends in an error. */
  method Windows(ghost stats: Stats, counts: array<int>, window: int)
    returns (ok: bool, perSecond: seq<Option<real>>, total: int)
    requires counts.Length > 0 && PerSecond(stats, stats.Keys, counts[..])
    ensures ok <==> window >= 0
    ensures ok ==> |perSecond| == counts.Length
    ensures ok ==> forall i :: 0 <= i < |perSecond| ==> perSecond[i] == Rate(stats, window, i)
    ensures ok ==> total == Commits(stats, 0, counts.Length)
  {
    perSecond, total := [], 0;
    var txsum := 0;
    CommitsSplit(stats, 0, 0, 0);
    hide Commits, PerSecond, Rate;
    for i := 0 to counts.Length
      invariant |perSecond| == i
      invariant window < 0 ==> i < counts.Length
      invariant window >= 0 ==> forall j :: 0 <= j < i ==> perSecond[j] == Rate(stats, window, j)
      invariant total == Commits(stats, 0, i)
      invariant window >= 0 ==> txsum == Commits(stats, From(window, i), i)
    {
      Counted(stats, counts[..], i);
      CommitsSplit(stats, 0, i, i + 1);
      total := total + counts[i];
      var thr: Option<real>;
      if window >= 0 {
        txsum, thr := Slide(stats, counts, window, i, txsum);
      } else if i - window < counts.Length {
        txsum := txsum + counts[i] - counts[i - window];
        thr := Some(txsum as real / window as real);
      } else {
        return false, [], 0;
      }
      perSecond := perSecond + [thr];
    }
    ok := true;
  }

  lemma Counted(stats: Stats, counts: seq<int>, i: nat)
    requires PerSecond(stats, stats.Keys, counts) && i < |counts|
    ensures counts[i] == Commits(stats, i, i + 1)
  {}

  lemma AllCommits(stats: Stats, n: nat)
    requires Spans(stats, stats.Keys, n)
    ensures Commits(stats, 0, n) == |Succeeded(stats, stats.Keys)|
  {
    forall k | k in stats ensures k in Between(stats, stats.Keys, 0, n) <==> k in Succeeded(stats, stats.Keys) {
      InSpan(stats, k, n);
    }
    assert Between(stats, stats.Keys, 0, n) == Succeeded(stats, stats.Keys);
  }

  /** What a report says about a log. */
  ghost predicate Reports(stats: Stats, window: nat, r: Results) {
    && r.success == |Succeeded(stats, stats.Keys)|
    && r.success + r.fail == |stats|
    && LatenciesOf(stats, stats.Keys, r.latencies)
    && Spans(stats, stats.Keys, |r.perSecond|)
    && (forall i :: 0 <= i < |r.perSecond| ==> r.perSecond[i] == Rate(stats, window, i))
    && r.throughput * |r.perSecond| as real == r.success as real
  }

  // ---------- The log ----------

  datatype Entry = Submit(index: int, when: int) | Commit(index: int, when: int)

  function Known(stats: Stats, index: int): (s: Stat) {
    if index in stats then stats[index] else Stat(-1, -1)
  }

  function AfterEntry(stats: Stats, e: Entry): (r: Stats) {
    var s := Known(stats, e.index);
    stats[e.index := if e.Submit? then s.(submit := e.when) else s.(commit := e.when)]
  }

  function Logged(es: seq<Entry>): (stats: Stats) {
    if es == [] then map[] else AfterEntry(Logged(es[..|es| - 1]), es[|es| - 1])
  }

  /** The last time that was logged for a transaction is not negative; there is one. */
  ghost predicate Happened(es: seq<Entry>, index: int, submit: bool) {
    exists k :: 0 <= k < |es| && es[k].index == index && es[k].Submit? == submit && es[k].when >= 0
                && forall j :: k < j < |es| && es[j].index == index ==> es[j].Submit? != submit
  }

  lemma HappenedMore(es: seq<Entry>, e: Entry, index: int, submit: bool)
    ensures Happened(es + [e], index, submit) <==>
            if e.index == index && e.Submit? == submit then e.when >= 0 else Happened(es, index, submit)
  {
    var all := es + [e];
    assert all[|es|] == e;
    if Happened(es, index, submit) && !(e.index == index && e.Submit? == submit) {
      var k :| 0 <= k < |es| && es[k].index == index && es[k].Submit? == submit && es[k].when >= 0
               && forall j :: k < j < |es| && es[j].index == index ==> es[j].Submit? != submit;
      assert all[k] == es[k];
    }
    if Happened(all, index, submit) && !(e.index == index && e.Submit? == submit) {
      var k :| 0 <= k < |all| && all[k].index == index && all[k].Submit? == submit && all[k].when >= 0
               && forall j :: k < j < |all| && all[j].index == index ==> all[j].Submit? != submit;
      assert es[k] == all[k];
      assert forall j :: k < j < |es| ==> es[j] == all[j];
    }
  }

  lemma {:induction false} TimesLogged(es: seq<Entry>, index: int)
    ensures Known(Logged(es), index).submit >= 0 <==> Happened(es, index, true)
    ensures Known(Logged(es), index).commit >= 0 <==> Happened(es, index, false)
  {
    if es != [] {
      var init, e := es[..|es| - 1], es[|es| - 1];
      TimesLogged(init, index);
      assert es == init + [e];
      HappenedMore(init, e, index, true);
      HappenedMore(init, e, index, false);
    }
  }

  /** A transaction succeeds exactly when its submission and its commit were logged, the last time for each not negative. */
  lemma SucceedsExactly(es: seq<Entry>, index: int)
    ensures index in Succeeded(Logged(es), Logged(es).Keys) <==> Happened(es, index, true) && Happened(es, index, false)
  {
    TimesLogged(es, index);
  }

  class EventLog {
    var stats: Stats

    constructor ()
      ensures stats == map[]
    {
      stats := map[];
    }

    /** What is known of a transaction; of one that was never logged, nothing. */
    function StatOf(index: int): (s: Stat)
      reads this
    {
      Known(stats, index)
    }

    method AddSubmit(index: int, when: int)
      modifies this
      ensures stats == AfterEntry(old(stats), Submit(index, when))
      ensures StatOf(index).submit == when && StatOf(index).commit == old(StatOf(index).commit)
      ensures forall i :: i != index ==> StatOf(i) == old(StatOf(i))
      ensures stats.Keys == old(stats.Keys) + {index}
    {
      stats := stats[index := StatOf(index).(submit := when)];
    }

    method AddCommit(index: int, when: int)
      modifies this
      ensures stats == AfterEntry(old(stats), Commit(index, when))
      ensures StatOf(index).commit == when && StatOf(index).submit == old(StatOf(index).submit)
      ensures forall i :: i != index ==> StatOf(i) == old(StatOf(i))
      ensures stats.Keys == old(stats.Keys) + {index}
    {
      stats := stats[index := StatOf(index).(commit := when)];
    }

    /** The report of the log; an error exactly for a negative window. */
    method Format(window: int) returns (r: Option<Results>)
      ensures r.Some? <==> window >= 0
      ensures r.Some? ==> Reports(stats, window, r.value)
    {
      hide LatenciesOf, Rate, PerSecond;
      var latencies, success, fail, maxCommit := Tally(stats);
      var counts := Histogram(stats, maxCommit);
      var ok, perSecond, total := Windows(stats, counts, window);
      if !ok {
        return None;
      }
      AllCommits(stats, maxCommit + 1);
      r := Some(Results(latencies, success, fail, perSecond, total as real / counts.Length as real));
    }
  }

  /** A window of no seconds gives no numbers. */
  lemma EmptyWindow(stats: Stats, r: Results)
    requires Reports(stats, 0, r)
    ensures forall i :: 0 <= i < |r.perSecond| ==> r.perSecond[i].None?
  {}

  // ---------- Consequences ----------

  ghost function Sum(s: seq<nat>): (r: nat) {
    if s == [] then 0 else Sum(s[..|s| - 1]) + s[|s| - 1]
  }

  /** The commits of the seconds add up to the number of successful transactions. */
  lemma {:induction false} HistogramSums(stats: Stats, n: nat)
    ensures Sum(seq(n, j requires 0 <= j < n => Commits(stats, j, j + 1))) == Commits(stats, 0, n)
  {
    var s := seq(n, j requires 0 <= j < n => Commits(stats, j, j + 1));
    if n == 0 {
      assert Between(stats, stats.Keys, 0, 0) == {};
    } else {
      HistogramSums(stats, n - 1);
      CommitsSplit(stats, 0, n - 1, n);
      assert s[..n - 1] == seq(n - 1, j requires 0 <= j < n - 1 => Commits(stats, j, j + 1));
    }
  }

  /** A report is determined by the log, up to the order of the latencies. */
  lemma ReportUnique(stats: Stats, window: nat, r: Results, q: Results)
    requires Reports(stats, window, r) && Reports(stats, window, q)
    ensures q == r.(latencies := q.latencies) && multiset(q.latencies) == multiset(r.latencies)
  {
    SpanUnique(stats, |r.perSecond|, |q.perSecond|);
    SameLatencies(stats, r.latencies, q.latencies);
    hide Rate, Spans, LatenciesOf;
    var n := |r.perSecond|;
    assert r.perSecond == q.perSecond;
    assert q.throughput * n as real == q.success as real == r.throughput * n as real;
    SameQuotient(r.throughput, q.throughput, |r.perSecond|);
  }

  lemma SameLatencies(stats: Stats, a: seq<real>, b: seq<real>)
    requires LatenciesOf(stats, stats.Keys, a) && LatenciesOf(stats, stats.Keys, b)
    ensures multiset(a) == multiset(b)
  {
    hide WithLatency;
    forall l ensures multiset(a)[l] == multiset(b)[l] {}
  }

  lemma SpanUnique(stats: Stats, n: nat, m: nat)
    requires Spans(stats, stats.Keys, n) && Spans(stats, stats.Keys, m)
    ensures n == m
  {}

  lemma SameQuotient(a: real, b: real, n: nat)
    requires n >= 1 && a * n as real == b * n as real
    ensures a == b
  {
    assert (a - b) * n as real == 0.0;
  }
}
