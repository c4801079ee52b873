/**
 The generators of a benchmark: behaviours, the clients that carry them, the
 workloads that carry clients, and the benchmark that carries workloads.  Each
 level fuses the streams of the level below.
 */
module Benchmark {
  import opened Basics
  import opened Merge
  import opened Schedule

  /** One behaviour: the load, the client that sends and the interaction to send. */
  datatype Behavior = Behavior(load: Load, client: nat, source: nat)

  type Client = seq<Behavior>
  type Workload = seq<Client>

  ghost predicate ValidClient(client: Client) {
    client != [] && forall i :: 0 <= i < |client| ==> ValidLoad(client[i].load)
  }

  ghost predicate ValidWorkload(workload: Workload) {
    workload != [] && forall i :: 0 <= i < |workload| ==> ValidClient(workload[i])
  }

  ghost predicate ValidBenchmark(workloads: seq<Workload>) {
    workloads != [] && forall i :: 0 <= i < |workloads| ==> ValidWorkload(workloads[i])
  }

  /** The send times of a load: its paced schedule. */
  ghost function Times(load: Load): (r: seq<real>) {
    if s: seq<real> :| Paced(load, s) then s else []
  }

  ghost function Stream(b: Behavior): (r: seq<Timed<Behavior>>) {
    seq(|Times(b.load)|, i requires 0 <= i < |Times(b.load)| => Timed(Times(b.load)[i], b))
  }

  /** The streams of some behaviours. */
  ghost function Streams(bs: seq<Behavior>): (r: seq<seq<Timed<Behavior>>>)
    ensures |r| == |bs| && forall i :: 0 <= i < |r| ==> r[i] == Stream(bs[i])
  {
    seq(|bs|, i requires 0 <= i < |bs| => Stream(bs[i]))
  }

  /** The streams of some clients, client by client. */
  ghost function ClientStreams(clients: seq<Client>): (r: seq<seq<seq<Timed<Behavior>>>>)
    ensures |r| == |clients| && forall i :: 0 <= i < |r| ==> r[i] == Streams(clients[i])
  {
    seq(|clients|, i requires 0 <= i < |clients| => Streams(clients[i]))
  }

  /** The streams of some workloads, workload by workload. */
  ghost function WorkloadStreams(workloads: seq<Workload>): (r: seq<seq<seq<Timed<Behavior>>>>)
    ensures |r| == |workloads| && forall i :: 0 <= i < |r| ==> r[i] == Streams(Concat(workloads[i]))
  {
    seq(|workloads|, i requires 0 <= i < |workloads| => Streams(Concat(workloads[i])))
  }

  /** The times of a stream. */
  function TimesOf<T>(s: seq<Timed<T>>): (r: seq<real>)
    ensures |r| == |s| && forall i :: 0 <= i < |r| ==> r[i] == s[i].time
  {
    seq(|s|, i requires 0 <= i < |s| => s[i].time)
  }

  ghost predicate Schedulable(load: Load) {
    exists times :: Paced(load, times)
  }

  /** The loads are valid and have a schedule. */
  ghost predicate AllPaced(bs: seq<Behavior>) {
    forall i :: 0 <= i < |bs| ==> ValidLoad(bs[i].load) && Schedulable(bs[i].load)
  }

  lemma {:induction false} AllPacedConcat(clients: seq<Client>)
    requires forall i :: 0 <= i < |clients| ==> AllPaced(clients[i])
    ensures AllPaced(Concat(clients))
  {
    hide ValidLoad, Schedulable;
    if clients != [] {
      AllPacedConcat(clients[1..]);
      assert AllPaced(clients[0]);
    }
  }

  lemma {:induction false} AllPacedWorkloads(workloads: seq<Workload>)
    requires forall i :: 0 <= i < |workloads| ==> AllPaced(Concat(workloads[i]))
    ensures AllPaced(Concat(Concat(workloads)))
  {
    hide ValidLoad, Schedulable;
    if workloads != [] {
      AllPacedWorkloads(workloads[1..]);
      ConcatAppend(workloads[0], Concat(workloads[1..]));
      assert AllPaced(Concat(workloads[0]));
    }
  }

  method GenerateTimeload(b: Behavior) returns (out: seq<Timed<Behavior>>)
    requires ValidLoad(b.load)
    ensures out == Stream(b) && Ordered(out)
    ensures Paced(b.load, TimesOf(out)) && forall i :: 0 <= i < |out| ==> out[i].item == b
  {
    hide Total, SortedKeys;
    var times := Flatten(b.load);
    PacedUnique(b.load, times, Times(b.load));
    out := seq(|times|, i requires 0 <= i < |times| => Timed(times[i], b));
    assert TimesOf(out) == times;
  }

  /** The stream of a behaviour carries it at the instants of its own load. */
  lemma StreamPaced(b: Behavior, times: seq<real>)
    requires Paced(b.load, times)
    ensures TimesOf(Stream(b)) == times && forall i :: 0 <= i < |Stream(b)| ==> Stream(b)[i].item == b
  {
    hide Reaches, Total, SortedKeys;
    PacedUnique(b.load, times, Times(b.load));
  }

  method GenerateClient(client: Client) returns (out: seq<Timed<Behavior>>)
    requires ValidClient(client)
    ensures out == StableSort(Concat(Streams(client))) && AllPaced(client)
  {
    hide Streams, Stream, StableSort, Ordered, Concat, ValidLoad, Paced;
    var ins: seq<seq<Timed<Behavior>>> := [];
    for i := 0 to |client|
      invariant |ins| == i && AllOrdered(ins)
      invariant forall k :: 0 <= k < i ==> ins[k] == Stream(client[k]) && Schedulable(client[k].load)
    {
      var stream := GenerateTimeload(client[i]);
      ins := ins + [stream];
    }
    assert ins == Streams(client);
    out := Fuse(ins);
  }

  method GenerateWorkload(workload: Workload) returns (out: seq<Timed<Behavior>>)
    requires ValidWorkload(workload)
    ensures out == StableSort(Concat(Streams(Concat(workload)))) && AllPaced(Concat(workload))
  {
    hide ClientStreams, Streams, StableSort, Ordered, Concat, ValidClient, SortEach, AllPaced;
    ghost var groups := ClientStreams(workload);
    var ins: seq<seq<Timed<Behavior>>> := [];
    for i := 0 to |workload|
      invariant |ins| == i && AllOrdered(ins)
      invariant forall k :: 0 <= k < i ==> ins[k] == StableSort(Concat(groups[k])) && AllPaced(workload[k])
    {
      var stream := GenerateClient(workload[i]);
      StableSortSorts(Concat(groups[i]));
      ins := ins + [stream];
    }
    assert ins == SortEach(groups);
    out := Fuse(ins);
    NestedMerge(groups);
    StreamsConcat(workload);
    AllPacedConcat(workload);
  }

  /**
   Every level of the benchmark fuses the one below.  The outcome is ordered by time and
   has an interaction of a behaviour at an instant exactly as often as the behaviour is
   configured, if the integral of its load first reaches a whole number there, and not at all
   otherwise.
   */
  method GenerateBenchmark(workloads: seq<Workload>) returns (out: seq<Timed<Behavior>>)
    requires ValidBenchmark(workloads)
    ensures out == StableSort(Concat(Streams(Concat(Concat(workloads)))))
    ensures Ordered(out)
    ensures forall t, b :: multiset(out)[Timed(t, b)] ==
                           if Sends(b.load, t) then multiset(Concat(Concat(workloads)))[b] else 0
  {
    hide WorkloadStreams, Streams, StableSort, Ordered, Concat, ValidWorkload, SortEach, Sends, AllPaced;
    ghost var groups := WorkloadStreams(workloads);
    var ins: seq<seq<Timed<Behavior>>> := [];
    for i := 0 to |workloads|
      invariant |ins| == i && AllOrdered(ins)
      invariant forall k :: 0 <= k < i ==> ins[k] == StableSort(Concat(groups[k])) && AllPaced(Concat(workloads[k]))
    {
      var stream := GenerateWorkload(workloads[i]);
      StableSortSorts(Concat(groups[i]));
      ins := ins + [stream];
    }
    assert ins == SortEach(groups);
    out := Fuse(ins);
    NestedMerge(groups);
    FlattenWorkloads(workloads);
    var all := Concat(Concat(workloads));
    AllPacedWorkloads(workloads);
    StableSortSorts(Concat(Streams(all)));
    SortCounts(Concat(Streams(all)));
    forall t, b ensures multiset(out)[Timed(t, b)] == if Sends(b.load, t) then multiset(all)[b] else 0 {
      StreamsCount(all, t, b);
    }
  }

  // ---------- What is sent when ----------

  /** The first instant at which the integral of a load is k. */
  ghost predicate Completes(load: Load, t: real, k: nat) {
    FirstReaches(SortedKeys(load.Keys), load, t, k as real)
  }

  /** An instant at which the integral of a load first reaches a whole number above 0. */
  ghost predicate Sends(load: Load, t: real) {
    exists k: nat :: k >= 1 && Completes(load, t, k)
  }

  lemma BeyondTotal(load: Load, t: real, k: nat)
    requires ValidLoad(load) && FirstReaches(SortedKeys(load.Keys), load, t, k as real)
    ensures k as real <= Total(load)
  {
    var times := SortedKeys(load.Keys);
    if times != [] {
      var last := times[|times| - 1];
      if t <= last {
        WorkMonotone(times, load, t, last);
      } else {
        WorkSaturates(times, load, t);
      }
    }
  }

  /** A paced schedule has an instant exactly when the load sends there, and then once. */
  lemma PacedSends(load: Load, times: seq<real>, t: real)
    requires ValidLoad(load) && Paced(load, times)
    ensures t in times <==> Sends(load, t)
  {
    var keys := SortedKeys(load.Keys);
    if i :| 0 <= i < |times| && times[i] == t {
      assert FirstReaches(keys, load, times[i], (i + 1) as real);
      assert Completes(load, t, i + 1);
    }
    if Sends(load, t) {
      var k: nat :| k >= 1 && Completes(load, t, k);
      BeyondTotal(load, t, k);
      assert FirstReaches(keys, load, times[k - 1], k as real);
    }
  }

  lemma {:induction false} IncreasingOnce(times: seq<real>, t: real)
    requires Increasing(times)
    ensures multiset(times)[t] == if t in times then 1 else 0
  {
    if times != [] {
      var init, last := times[..|times| - 1], times[|times| - 1];
      assert times == init + [last];
      IncreasingOnce(init, t);
    }
  }

  lemma {:induction false} TimesCount(s: seq<Timed<Behavior>>, b: Behavior, t: real, c: Behavior)
    requires forall i :: 0 <= i < |s| ==> s[i].item == b
    ensures multiset(s)[Timed(t, c)] == if b == c then multiset(TimesOf(s))[t] else 0
  {
    if s != [] {
      var init, last := s[..|s| - 1], s[|s| - 1];
      TimesCount(init, b, t, c);
      assert s == init + [last];
      assert TimesOf(s) == TimesOf(init) + [last.time];
    }
  }

  lemma StreamCount(b: Behavior, t: real, c: Behavior)
    requires ValidLoad(b.load) && Schedulable(b.load)
    ensures multiset(Stream(b))[Timed(t, c)] == if b == c && Sends(b.load, t) then 1 else 0
  {
    var times :| Paced(b.load, times);
    StreamPaced(b, times);
    PacedSends(b.load, times, t);
    IncreasingOnce(times, t);
    TimesCount(Stream(b), b, t, c);
  }

  lemma {:induction false} StreamsCount(bs: seq<Behavior>, t: real, c: Behavior)
    requires AllPaced(bs)
    ensures multiset(Concat(Streams(bs)))[Timed(t, c)] == if Sends(c.load, t) then multiset(bs)[c] else 0
  {
    hide Streams, Stream, Sends, Schedulable, ValidLoad;
    if bs == [] {
      assert Streams(bs) == [];
    } else {
      var rest := bs[1..];
      assert Streams(bs)[1..] == Streams(rest);
      assert bs == [bs[0]] + rest;
      StreamsCount(rest, t, c);
      StreamCount(bs[0], t, c);
    }
  }

  lemma {:induction false} SortCounts<T>(s: seq<Timed<T>>)
    ensures multiset(StableSort(s)) == multiset(s)
  {
    if s != [] {
      SortCounts(s[1..]);
      InsertCounts(s[0], StableSort(s[1..]));
      assert s == [s[0]] + s[1..];
    }
  }

  lemma {:induction false} InsertCounts<T>(x: Timed<T>, s: seq<Timed<T>>)
    ensures multiset(Insert(x, s)) == multiset([x] + s)
  {
    if s != [] && s[0].time < x.time {
      InsertCounts(x, s[1..]);
      assert s == [s[0]] + s[1..];
    }
  }

  // ---------- The order of the configuration ----------

  lemma StreamsAppend(a: seq<Behavior>, b: seq<Behavior>)
    ensures Streams(a + b) == Streams(a) + Streams(b)
  {
    hide Streams, Stream;
    var ab := Streams(a + b);
    assert forall i :: 0 <= i < |ab| ==> ab[i] == (Streams(a) + Streams(b))[i];
  }

  lemma {:induction false} StreamsConcat(workload: Workload)
    ensures Concat(ClientStreams(workload)) == Streams(Concat(workload))
  {
    hide ClientStreams, Streams;
    if workload == [] {
      assert ClientStreams(workload) == [] && Streams([]) == [];
    } else {
      var rest := workload[1..];
      StreamsConcat(rest);
      assert ClientStreams(workload)[1..] == ClientStreams(rest);
      StreamsAppend(workload[0], Concat(rest));
    }
  }

  lemma {:induction false} FlattenWorkloads(workloads: seq<Workload>)
    ensures Concat(WorkloadStreams(workloads)) == Streams(Concat(Concat(workloads)))
  {
    hide WorkloadStreams, Streams;
    if workloads == [] {
      assert WorkloadStreams(workloads) == [] && Streams([]) == [];
    } else {
      var rest := workloads[1..];
      FlattenWorkloads(rest);
      assert WorkloadStreams(workloads)[1..] == WorkloadStreams(rest);
      ConcatAppend(workloads[0], Concat(rest));
      StreamsAppend(Concat(workloads[0]), Concat(Concat(rest)));
    }
  }

  // ---------- What one client is sent ----------

  /** The interactions of one client, in their order. */
  function OfClient(s: seq<Timed<Behavior>>, client: nat): (r: seq<Timed<Behavior>>) {
    if s == [] then []
    else (if s[0].item.client == client then [s[0]] else []) + OfClient(s[1..], client)
  }

  lemma {:induction false} OfClientCounts(s: seq<Timed<Behavior>>, client: nat, e: Timed<Behavior>)
    ensures multiset(OfClient(s, client))[e] == if e.item.client == client then multiset(s)[e] else 0
  {
    if s != [] {
      OfClientCounts(s[1..], client, e);
      assert s == [s[0]] + s[1..];
    }
  }

  lemma OfClientHead(x: Timed<Behavior>, s: seq<Timed<Behavior>>, client: nat)
    ensures OfClient([x] + s, client) ==
            if x.item.client == client then [x] + OfClient(s, client) else OfClient(s, client)
  {
    assert ([x] + s)[1..] == s;
  }

  lemma {:induction false} OfClientLater(s: seq<Timed<Behavior>>, client: nat, t: real)
    requires forall k :: 0 <= k < |s| ==> t <= s[k].time
    ensures forall k :: 0 <= k < |OfClient(s, client)| ==> t <= OfClient(s, client)[k].time
  {
    if s != [] {
      OfClientLater(s[1..], client, t);
    }
  }

  lemma {:induction false} OfClientInsert(x: Timed<Behavior>, s: seq<Timed<Behavior>>, client: nat)
    requires Ordered(s)
    ensures OfClient(Insert(x, s), client) ==
            if x.item.client == client then Insert(x, OfClient(s, client)) else OfClient(s, client)
  {
    if s == [] || x.time <= s[0].time {
      OfClientHead(x, s, client);
      OfClientLater(s, client, x.time);
    } else {
      var rest := OfClient(s[1..], client);
      OfClientInsert(x, s[1..], client);
      OfClientHead(s[0], Insert(x, s[1..]), client);
      OfClientHead(s[0], s[1..], client);
      assert s == [s[0]] + s[1..];
      assert ([s[0]] + rest)[1..] == rest;
    }
  }

  /** Sorting everything and then keeping one client is keeping that client and then sorting. */
  lemma {:induction false} ClientSeesItsOwn(s: seq<Timed<Behavior>>, client: nat)
    ensures OfClient(StableSort(s), client) == StableSort(OfClient(s, client))
  {
    if s != [] {
      ClientSeesItsOwn(s[1..], client);
      StableSortSorts(s[1..]);
      OfClientInsert(s[0], StableSort(s[1..]), client);
      OfClientHead(s[0], s[1..], client);
      assert s == [s[0]] + s[1..];
      assert ([s[0]] + OfClient(s[1..], client))[1..] == OfClient(s[1..], client);
    }
  }

  /** The behaviours of one client, in their order. */
  ghost function Own(bs: seq<Behavior>, client: nat): (r: seq<Behavior>) {
    if bs == [] then []
    else (if bs[0].client == client then [bs[0]] else []) + Own(bs[1..], client)
  }

  lemma {:induction false} OfClientAppend(a: seq<Timed<Behavior>>, b: seq<Timed<Behavior>>, client: nat)
    ensures OfClient(a + b, client) == OfClient(a, client) + OfClient(b, client)
  {
    if a == [] {
      assert a + b == b;
    } else {
      assert (a + b)[1..] == a[1..] + b;
      OfClientAppend(a[1..], b, client);
      var first := if a[0].item.client == client then [a[0]] else [];
      var p, q := OfClient(a[1..], client), OfClient(b, client);
      assert OfClient(a, client) == first + p && OfClient(a + b, client) == first + (p + q);
      assert first + (p + q) == (first + p) + q;
    }
  }

  lemma {:induction false} OfClientAlike(s: seq<Timed<Behavior>>, b: Behavior, client: nat)
    requires forall i :: 0 <= i < |s| ==> s[i].item == b
    ensures OfClient(s, client) == if b.client == client then s else []
  {
    if s != [] {
      OfClientAlike(s[1..], b, client);
    }
  }

  lemma StreamItems(b: Behavior)
    ensures forall i :: 0 <= i < |Stream(b)| ==> Stream(b)[i].item == b
  {}

  /** What a client sees of the leaf streams are the streams of its own behaviours. */
  lemma {:induction false} OwnStreams(bs: seq<Behavior>, client: nat)
    ensures OfClient(Concat(Streams(bs)), client) == Concat(Streams(Own(bs, client)))
  {
    hide Streams, Stream;
    if bs == [] {
      assert Streams(bs) == [] && Own(bs, client) == [];
    } else {
      var rest := bs[1..];
      OwnStreams(rest, client);
      assert Streams(bs)[1..] == Streams(rest);
      OfClientAppend(Stream(bs[0]), Concat(Streams(rest)), client);
      StreamItems(bs[0]);
      OfClientAlike(Stream(bs[0]), bs[0], client);
      if bs[0].client == client {
        var own := Own(bs, client);
        assert own[1..] == Own(rest, client);
        assert Streams(own)[1..] == Streams(Own(rest, client));
      } else {
        assert Own(bs, client) == Own(rest, client);
        assert [] + OfClient(Concat(Streams(rest)), client) == OfClient(Concat(Streams(rest)), client);
      }
    }
  }

  /**
   The schedule of the whole benchmark, as one client sees it, is the stable sort of that
   client's own streams: it is the schedule of the benchmark without the other clients.
   */
  lemma ClientSchedule(workloads: seq<Workload>, client: nat)
    ensures var all := Concat(Concat(workloads));
            OfClient(StableSort(Concat(Streams(all))), client) == StableSort(Concat(Streams(Own(all, client))))
  {
    var all := Concat(Concat(workloads));
    ClientSeesItsOwn(Concat(Streams(all)), client);
    OwnStreams(all, client);
  }
}
