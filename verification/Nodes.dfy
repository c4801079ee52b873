/**
 The objects on both ends of a connection: the primary's view of a secondary, the
 secondary's runtime, and the result that is collected.
 */
module Nodes {
  import opened Basics
  import opened Merge
  import opened Permutations
  import opened Wire
  import opened WireStreams
  import opened Outcomes
  import opened Protocol
  import opened Conservation
  import opened Triggering

  /** The longest of some times; 0 when none is longer. */
  ghost predicate Longest(value: Float -> real, times: seq<Float>, longest: real) {
    && longest >= 0.0
    && (forall k :: 0 <= k < |times| ==> value(times[k]) <= longest)
    && (longest == 0.0 || exists k :: 0 <= k < |times| && value(times[k]) == longest)
  }

  /** The primary's object for a secondary; the times of a client's interactions are kept by their maximum. */
  class RemoteSecondary {
    const value: Float -> real
    var clients: seq<Sender>
    var maxTimes: seq<real>
    ghost var offered: seq<seq<Float>>
    ghost var sent: seq<Prepare>
    const writer: Writer

    ghost predicate Valid()
      reads this, writer
    {
      && writer.Valid()
      && (forall i :: 0 <= i < |sent| ==> PrepareAccepted(sent[i]))
      && writer.out == PutPrepares(sent)
      && |offered| == |maxTimes| == |clients|
      && (forall i :: 0 <= i < |offered| ==> Longest(value, offered[i], maxTimes[i]))
    }

    ghost function View(): (p: Primary)
      reads this
    {
      Primary(clients, sent)
    }

    constructor (reading: Float -> real)
      ensures Valid() && fresh(writer) && View() == Primary([], []) && offered == []
    {
      value := reading;
      clients, sent, maxTimes, offered := [], [], [], [];
      writer := new Writer();
    }

    method SendPrepare(m: Prepare) returns (ok: bool)
      requires Valid()
      modifies `sent, writer
      ensures Valid()
      ensures ok <==> PrepareAccepted(m)
      ensures sent == if ok then old(sent) + [m] else old(sent)
    {
      hide PutPrepare, PrepareAccepted;
      ok := writer.WritePrepare(m);
      if ok {
        PreparesAppend(sent, m);
        sent := sent + [m];
      }
    }

    method CreateClient(kind: Bytes, view: seq<Bytes>) returns (id: Option<nat>)
      requires Valid()
      modifies this, writer
      ensures Valid()
      ensures id.Some? <==> AfterCreate(old(View()), kind, view).Some?
      ensures id.Some? ==> id.value == |old(clients)| && View() == AfterCreate(old(View()), kind, view).value
      ensures id.None? ==> View() == old(View()) && offered == old(offered)
      ensures id.Some? ==> offered == old(offered) + [[]]
    {
      hide PrepareAccepted;
      var ok := SendPrepare(Client(view, |clients|));
      if !ok {
        return None;
      }
      clients := clients + [Sender(kind, [], map[])];
      maxTimes, offered := maxTimes + [0.0], offered + [[]];
      return Some(|clients| - 1);
    }

    /** A kind is interned, and a time counts, even when the message is then refused. */
    method SendInteraction(client: nat, ikind: Bytes, time: Float, payload: Bytes) returns (ok: bool)
      requires Valid() && client < |clients|
      modifies this, writer
      ensures Valid()
      ensures ok <==> AfterSend(old(View()), client, ikind, time, payload).Some?
      ensures ok ==> View() == AfterSend(old(View()), client, ikind, time, payload).value
      ensures !ok ==> sent == old(sent) && clients == old(clients)[client := Intern(old(clients)[client], ikind).0]
      ensures offered == old(offered)[client := old(offered)[client] + [time]]
    {
      hide PrepareAccepted, Longest;
      LongestMore(value, offered[client], maxTimes[client], time);
      if value(time) > maxTimes[client] {
        maxTimes := maxTimes[client := value(time)];
      }
      offered := offered[client := offered[client] + [time]];
      var s := clients[client];
      var k: nat;
      if ikind in s.ikinds {
        k := s.ikinds[ikind];
      } else {
        k := |s.kinds|;
        s := s.(kinds := s.kinds + [ikind], ikinds := s.ikinds[ikind := k]);
      }
      clients := clients[client := s];
      ok := SendPrepare(Interaction(client, k, time, payload));
    }

    /** The longest time that was given to any client. */
    method End() returns (longest: real)
      requires Valid()
      ensures Longest(value, Concat(offered), longest)
    {
      hide Longest;
      longest := 0.0;
      assert offered[..0] == [];
      LongestOfNothing(value);
      for i := 0 to |clients|
        invariant Longest(value, Concat(offered[..i]), longest)
      {
        LongestJoin(value, Concat(offered[..i]), longest, offered[i], maxTimes[i]);
        ConcatMore(offered, i);
        if maxTimes[i] > longest {
          longest := maxTimes[i];
        }
      }
      assert offered[..|offered|] == offered;
    }

    method Collect(reader: Reader) returns (r: Option<SecondaryResult>)
      modifies reader
      ensures r == CollectFrom(clients, NOTHING, old(reader.rest))
    {
      hide GetResult;
      var result := new ResultBuilder();
      while true
        invariant result.Valid() && fresh(result)
        invariant CollectFrom(clients, result.View(), reader.rest) == CollectFrom(clients, NOTHING, old(reader.rest))
        decreases |reader.rest|
      {
        ReadResultInRange(reader.rest);
        var m := reader.ReadResult();
        if m.None? {
          return None;
        }
        if m.value.ResultDone? {
          return Some(result.View());
        }
        if m.value.index >= |clients| {
          return None;
        }
        var client := clients[m.value.index];
        if m.value.kind >= |client.kinds| {
          return None;
        }
        result.Add(m.value.index, client.kind, InteractionResult(client.kinds[m.value.kind],
          Outcome(m.value.submit, m.value.commit, m.value.abort, m.value.hasError)));
      }
    }
  }

  class ResultBuilder {
    var ids: map<int, nat>
    var clients: seq<ClientResult>

    ghost predicate Valid()
      reads this
    {
      forall x :: x in ids ==> ids[x] < |clients|
    }

    function View(): (c: SecondaryResult)
      reads this
    {
      SecondaryResult(ids, clients)
    }

    constructor ()
      ensures Valid() && View() == NOTHING
    {
      ids, clients := map[], [];
    }

    method GetClientResult(id: int, kind: Bytes) returns (offset: nat)
      requires Valid()
      modifies this
      ensures Valid() && id in ids && offset == ids[id]
      ensures id in old(ids) ==> View() == old(View())
      ensures id !in old(ids) ==>
                View() == SecondaryResult(old(ids)[id := |old(clients)|], old(clients) + [ClientResult(id, kind, [])])
    {
      if id in ids {
        return ids[id];
      }
      offset := |clients|;
      ids := ids[id := offset];
      clients := clients + [ClientResult(id, kind, [])];
    }

    method Add(id: int, kind: Bytes, r: InteractionResult)
      requires Valid()
      modifies this
      ensures Valid() && View() == AddResult(old(View()), id, kind, r)
    {
      var offset := GetClientResult(id, kind);
      var entry := clients[offset];
      clients := clients[offset := entry.(interactions := entry.interactions + [r])];
      if id !in old(ids) {
        assert [] + [r] == [r];
        assert clients == old(clients) + [ClientResult(id, kind, [r])];
      }
    }
  }

  /** The answers of the blockchain package to the messages read, by position: all of them welcome. */
  ghost predicate Welcome(answers: nat -> bool, k: nat, s: Bytes)
    decreases |s|
  {
    match GetPrepare(s)
    case None => true
    case Some((m, s1)) => m.Done? || (answers(k) && Welcome(answers, k + 1, s1))
  }

  class RuntimeNode {
    var clients: map<int, seq<Bytes>>
    var interactions: seq<Job>

    constructor ()
      ensures clients == map[] && interactions == []
    {
      clients, interactions := map[], [];
    }

    /**
     Reads messages until Done; the package creates a client for some and decodes the
     payload of the others, and may refuse.  Every payload is decoded by a job of its own,
     and the jobs finish in any order.
     */
    method Prepare(reader: Reader, answers: nat -> bool) returns (ok: bool)
      requires clients == map[] && interactions == []
      modifies this, reader
      ensures ok <==> PrepareFrom(EMPTY, old(reader.rest)).Some? && Welcome(answers, 0, old(reader.rest))
      ensures ok ==> clients == PrepareFrom(EMPTY, old(reader.rest)).value.clients
      ensures ok ==> multiset(Iacts(interactions)) == multiset(PrepareFrom(EMPTY, old(reader.rest)).value.iacts)
      ensures ok ==> forall i :: 0 <= i < |interactions| ==> interactions[i].fate == NOT_YET
    {
      hide GetPrepare;
      var jobs: seq<Job> := [];
      var k, refused := 0, false;
      while true
        invariant interactions == [] && Fresh(jobs)
        invariant PrepareFrom(Runtime(clients, Iacts(jobs)), reader.rest) == PrepareFrom(EMPTY, old(reader.rest))
        invariant Welcome(answers, 0, old(reader.rest)) <==> !refused && Welcome(answers, k, reader.rest)
        decreases |reader.rest|
      {
        var m := reader.ReadPrepare();
        if m.None? {
          return false;
        }
        match m.value {
          case Done => break;
          case Client(view, index) =>
            if !answers(k) {
              return false;
            }
            clients := clients[index := view];
          case Interaction(index, kind, time, payload) =>
            if index !in clients {
              return false;
            }
            refused := refused || !answers(k);
            IactsMore(jobs, Job(Iact(index, kind, time, payload), NOT_YET));
            jobs := jobs + [Job(Iact(index, kind, time, payload), NOT_YET)];
        }
        k := k + 1;
      }
      FinishJobs(jobs);
      IactsPermute(interactions, jobs);
      FreshPermutes(jobs, interactions);
      return !refused;
    }

    /** The decoded interactions in the order in which their jobs finish. */
    method FinishJobs(jobs: seq<Job>)
      modifies `interactions
      ensures multiset(interactions) == multiset(old(interactions)) + multiset(jobs)
    {
      var running := jobs;
      while running != []
        invariant multiset(interactions) + multiset(running) == multiset(old(interactions)) + multiset(jobs)
        decreases |running|
      {
        var k :| 0 <= k < |running|;
        WithoutCounts(running, k);
        interactions := interactions + [running[k]];
        running := Without(running, k);
      }
    }

    /** Puts the interactions in the order of their times; those of the same time keep their order. */
    method Sort(value: Float -> real)
      modifies `interactions
      ensures forall i, j :: 0 <= i < j < |interactions| ==>
                value(interactions[i].iact.time) <= value(interactions[j].iact.time)
      ensures forall t :: At(Stamp(value, interactions), t) == At(Stamp(value, old(interactions)), t)
      ensures multiset(interactions) == multiset(old(interactions))
      ensures Stamp(value, interactions) == Triggered(value, old(interactions))
    {
      interactions := SortJobs(value, interactions);
    }

    /** Reports that come again change nothing. */
    method ReportSubmit(i: nat, now: Float)
      requires i < |interactions|
      modifies `interactions
      ensures |interactions| == |old(interactions)| && interactions[i].iact == old(interactions[i].iact)
      ensures interactions[i].fate == AfterEvent(old(interactions[i].fate), Submitted(now))
      ensures forall k :: 0 <= k < |interactions| && k != i ==> interactions[k] == old(interactions[k])
    {
      var j := interactions[i];
      if j.fate.submit.Some? {
        return;
      }
      interactions := interactions[i := j.(fate := j.fate.(submit := Some(now)))];
    }

    method ReportCommit(i: nat, now: Float)
      requires i < |interactions|
      modifies `interactions
      ensures |interactions| == |old(interactions)| && interactions[i].iact == old(interactions[i].iact)
      ensures interactions[i].fate == AfterEvent(old(interactions[i].fate), Committed(now))
      ensures forall k :: 0 <= k < |interactions| && k != i ==> interactions[k] == old(interactions[k])
    {
      var j := interactions[i];
      if j.fate.commit.Some? {
        return;
      }
      interactions := interactions[i := j.(fate := j.fate.(commit := Some(now)))];
    }

    method ReportAbort(i: nat, now: Float)
      requires i < |interactions|
      modifies `interactions
      ensures |interactions| == |old(interactions)| && interactions[i].iact == old(interactions[i].iact)
      ensures interactions[i].fate == AfterEvent(old(interactions[i].fate), Aborted(now))
      ensures forall k :: 0 <= k < |interactions| && k != i ==> interactions[k] == old(interactions[k])
    {
      var j := interactions[i];
      if j.fate.abort.Some? {
        return;
      }
      interactions := interactions[i := j.(fate := j.fate.(abort := Some(now)))];
    }

    /** The end of a trigger, with or without an error. */
    method Finish(i: nat, error: bool)
      requires i < |interactions|
      modifies `interactions
      ensures |interactions| == |old(interactions)| && interactions[i].iact == old(interactions[i].iact)
      ensures interactions[i].fate == AfterEvent(old(interactions[i].fate), Returned(error))
      ensures forall k :: 0 <= k < |interactions| && k != i ==> interactions[k] == old(interactions[k])
    {
      var j := interactions[i];
      interactions := interactions[i := j.(fate := j.fate.(failed := Some(error)))];
    }

    /** Reports every interaction, with -1 for the times that were never reported. */
    method Stop(writer: Writer) returns (ok: bool)
      requires writer.Valid()
      modifies writer
      ensures writer.Valid()
      ensures ok <==> forall i :: 0 <= i < |interactions| ==> ResultAccepted(Report(interactions)[i])
      ensures ok ==> writer.out == old(writer.out) + ResultBytes(Report(interactions))
    {
      hide PutResult, ResultAccepted, Report, PutResults;
      ghost var ms := Report(interactions);
      NothingPut(ms);
      for i := 0 to |interactions|
        invariant writer.Valid()
        invariant forall k :: 0 <= k < i ==> ResultAccepted(ms[k])
        invariant writer.out == old(writer.out) + PutResults(ms[..i])
      {
        var f := interactions[i].fate;
        var m := ResultInteraction(interactions[i].iact.client, interactions[i].iact.kind,
          if f.submit.Some? then f.submit.value else NEVER,
          if f.commit.Some? then f.commit.value else NEVER,
          if f.abort.Some? then f.abort.value else NEVER,
          if f.failed.Some? then f.failed.value else false);
        assert m == ms[i];
        ok := writer.WriteResult(m);
        if !ok {
          return false;
        }
        OneMorePut(ms, i);
        assert old(writer.out) + PutResults(ms[..i]) + PutResult(ms[i]).value
            == old(writer.out) + (PutResults(ms[..i]) + PutResult(ms[i]).value);
      }
      assert ms[..|ms|] == ms;
      DoneBytes();
      ok := writer.WriteResult(ResultDone);
      assert old(writer.out) + PutResults(ms) + [0] == old(writer.out) + (PutResults(ms) + [0]);
    }
  }

  // ---------- Helpers ----------

  ghost predicate Fresh(jobs: seq<Job>) {
    forall i :: 0 <= i < |jobs| ==> jobs[i].fate == NOT_YET
  }

  lemma FreshPermutes(a: seq<Job>, b: seq<Job>)
    requires multiset(a) == multiset(b) && Fresh(a)
    ensures Fresh(b)
  {
    forall i | 0 <= i < |b| ensures b[i].fate == NOT_YET {
      assert b[i] in multiset(b);
      assert b[i] in a;
    }
  }

  lemma IactsMore(jobs: seq<Job>, j: Job)
    ensures Iacts(jobs + [j]) == Iacts(jobs) + [j.iact]
  {}

  lemma LongestOfNothing(value: Float -> real)
    ensures Longest(value, [], 0.0)
  {}

  lemma LongestMore(value: Float -> real, times: seq<Float>, longest: real, t: Float)
    requires Longest(value, times, longest)
    ensures Longest(value, times + [t], if value(t) > longest then value(t) else longest)
  {
    var more := times + [t];
    assert more[|times|] == t;
    forall k | 0 <= k < |times| ensures more[k] == times[k] {}
    if value(t) <= longest && longest != 0.0 {
      var k :| 0 <= k < |times| && value(times[k]) == longest;
      assert value(more[k]) == longest;
    }
  }

  lemma LongestJoin(value: Float -> real, a: seq<Float>, x: real, b: seq<Float>, y: real)
    requires Longest(value, a, x) && Longest(value, b, y)
    ensures Longest(value, a + b, if y > x then y else x)
  {
    var ab := a + b;
    forall k | 0 <= k < |ab| ensures value(ab[k]) <= if y > x then y else x {
      assert ab[k] == if k < |a| then a[k] else b[k - |a|];
    }
    if y > x {
      var k :| 0 <= k < |b| && value(b[k]) == y;
      assert value(ab[|a| + k]) == y;
    } else if x != 0.0 {
      var k :| 0 <= k < |a| && value(a[k]) == x;
      assert value(ab[k]) == x;
    }
  }

  lemma ConcatMore(ss: seq<seq<Float>>, i: nat)
    requires i < |ss|
    ensures Concat(ss[..i + 1]) == Concat(ss[..i]) + ss[i]
  {
    assert ss[..i + 1] == ss[..i] + [ss[i]];
    ConcatAppend(ss[..i], [ss[i]]);
    assert Concat([ss[i]]) == ss[i];
  }

  lemma NothingPut(ms: seq<Result>)
    ensures PutResults(ms[..0]) == []
  {}

  lemma OneMorePut(ms: seq<Result>, i: nat)
    requires i < |ms| && forall k :: 0 <= k <= i ==> ResultAccepted(ms[k])
    ensures PutResults(ms[..i + 1]) == PutResults(ms[..i]) + PutResult(ms[i]).value
  {
    hide PutResult, ResultAccepted;
    assert ms[..i + 1] == ms[..i] + [ms[i]];
    ResultsAppend(ms[..i], ms[i]);
  }

  lemma DoneBytes()
    ensures ResultAccepted(ResultDone) && PutResult(ResultDone) == Some([0])
  {}

  lemma {:induction false} PreparesAppend(ms: seq<Prepare>, m: Prepare)
    requires forall i :: 0 <= i < |ms| ==> PrepareAccepted(ms[i])
    requires PrepareAccepted(m)
    ensures PutPrepares(ms + [m]) == PutPrepares(ms) + PutPrepare(m).value
  {
    hide PutPrepare, PrepareAccepted;
    if ms == [] {
      assert ms + [m] == [m];
    } else {
      assert (ms + [m])[1..] == ms[1..] + [m];
      PreparesAppend(ms[1..], m);
    }
  }

  lemma {:induction false} ResultsAppend(ms: seq<Result>, m: Result)
    requires forall i :: 0 <= i < |ms| ==> ResultAccepted(ms[i])
    requires ResultAccepted(m)
    ensures PutResults(ms + [m]) == PutResults(ms) + PutResult(m).value
  {
    hide PutResult, ResultAccepted;
    if ms == [] {
      assert ms + [m] == [m];
    } else {
      assert (ms + [m])[1..] == ms[1..] + [m];
      ResultsAppend(ms[1..], m);
    }
  }
}
