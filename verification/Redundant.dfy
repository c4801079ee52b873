/**
 The redundancy wrapper: one interaction handed to n clients, reported to the inner
 interaction once.

 The locked part of each report is one step, and so are the start and the end of the
 call to the inner interaction that follows it.  Each client reports submit, then at
 most one of commit and abort; the clients interleave in any way.
 */
module Redundant {

  datatype Flags = Flags(submitted: bool, committed: bool, aborted: bool, timesCommitted: nat, timesAborted: nat)

  /** The locked part of each report: the new flags, and whether the inner interaction is to be told. */
  function AfterSubmit(f: Flags): (r: (Flags, bool)) {
    if f.submitted then (f, false) else (f.(submitted := true), true)
  }

  function AfterCommit(f: Flags, threshold: nat): (r: (Flags, bool)) {
    if f.committed then (f, false)
    else
      var times := f.timesCommitted + 1;
      (f.(timesCommitted := times, committed := times == threshold), times == threshold)
  }

  function AfterAbort(f: Flags, threshold: nat): (r: (Flags, bool)) {
    if f.aborted then (f, false)
    else
      var times := f.timesAborted + 1;
      (f.(timesAborted := times, aborted := times == threshold), times == threshold)
  }

  class Interaction {
    const threshold: nat
    var submitted: bool
    var committed: bool
    var aborted: bool
    var timesCommitted: nat
    var timesAborted: nat

    function View(): (f: Flags)
      reads this
    {
      Flags(submitted, committed, aborted, timesCommitted, timesAborted)
    }

    constructor (clients: nat)
      ensures threshold == clients && View() == Flags(false, false, false, 0, 0)
    {
      threshold, submitted, committed, aborted := clients, false, false, false;
      timesCommitted, timesAborted := 0, 0;
    }

    method ReportSubmit() returns (tell: bool)
      modifies this
      ensures (View(), tell) == AfterSubmit(old(View()))
    {
      if submitted {
        return false;
      }
      submitted := true;
      return true;
    }

    method ReportCommit() returns (tell: bool)
      modifies this
      ensures (View(), tell) == AfterCommit(old(View()), threshold)
    {
      if committed {
        return false;
      }
      timesCommitted := timesCommitted + 1;
      if timesCommitted == threshold {
        committed := true;
      }
      return committed;
    }

    method ReportAbort() returns (tell: bool)
      modifies this
      ensures (View(), tell) == AfterAbort(old(View()), threshold)
    {
      if aborted {
        return false;
      }
      timesAborted := timesAborted + 1;
      if timesAborted == threshold {
        aborted := true;
      }
      return aborted;
    }
  }

  // ---------- All the clients ----------

  /** Where a client is; `Telling` clients are inside a call to the inner interaction. */
  datatype Phase = Triggered | TellingSubmit | Submitted | Committed(telling: bool) | Aborted(telling: bool)

  datatype Event = SubmitStarts | SubmitReturns | CommitStarts | AbortStarts

  datatype System = System(flags: Flags, clients: seq<Phase>, log: seq<Event>)

  datatype Vote = Commit | Abort

  function Init(n: nat): (s: System) {
    System(Flags(false, false, false, 0, 0), seq(n, _ => Triggered), [])
  }

  function Log(log: seq<Event>, tell: bool, event: Event): (r: seq<Event>) {
    if tell then log + [event] else log
  }

  /** The next step of client i; a client that has submitted votes. */
  function Step(s: System, i: nat, vote: Vote): (r: System)
    ensures |r.clients| == |s.clients|
  {
    if i >= |s.clients| then s
    else
      match s.clients[i]
      case Triggered =>
        var (f, tell) := AfterSubmit(s.flags);
        System(f, s.clients[i := if tell then TellingSubmit else Submitted], Log(s.log, tell, SubmitStarts))
      case TellingSubmit => System(s.flags, s.clients[i := Submitted], s.log + [SubmitReturns])
      case Submitted =>
        if vote.Commit? then
          var (f, tell) := AfterCommit(s.flags, |s.clients|);
          System(f, s.clients[i := Committed(tell)], Log(s.log, tell, CommitStarts))
        else
          var (f, tell) := AfterAbort(s.flags, |s.clients|);
          System(f, s.clients[i := Aborted(tell)], Log(s.log, tell, AbortStarts))
      case Committed(_) => s.(clients := s.clients[i := Committed(false)])
      case Aborted(_) => s.(clients := s.clients[i := Aborted(false)])
  }

  function Run(n: nat, steps: seq<(nat, Vote)>): (s: System)
    ensures |s.clients| == n
  {
    if steps == [] then Init(n)
    else Step(Run(n, steps[..|steps| - 1]), steps[|steps| - 1].0, steps[|steps| - 1].1)
  }

  // ---------- What every step keeps ----------

  function Commits(clients: seq<Phase>): (n: nat) {
    if clients == [] then 0
    else Commits(clients[..|clients| - 1]) + if clients[|clients| - 1].Committed? then 1 else 0
  }

  function Aborts(clients: seq<Phase>): (n: nat) {
    if clients == [] then 0
    else Aborts(clients[..|clients| - 1]) + if clients[|clients| - 1].Aborted? then 1 else 0
  }

  lemma {:induction false} VotesAfter(clients: seq<Phase>, i: nat, p: Phase)
    requires i < |clients|
    ensures Commits(clients[i := p]) ==
            Commits(clients) + (if p.Committed? then 1 else 0) - (if clients[i].Committed? then 1 else 0)
    ensures Aborts(clients[i := p]) ==
            Aborts(clients) + (if p.Aborted? then 1 else 0) - (if clients[i].Aborted? then 1 else 0)
  {
    var k := |clients| - 1;
    if i < k {
      assert clients[i := p][..k] == clients[..k][i := p];
      VotesAfter(clients[..k], i, p);
    } else {
      assert clients[i := p][..k] == clients[..k];
    }
  }

  predicate AllCommitted(clients: seq<Phase>) {
    forall i :: 0 <= i < |clients| ==> clients[i].Committed?
  }

  predicate AllAborted(clients: seq<Phase>) {
    forall i :: 0 <= i < |clients| ==> clients[i].Aborted?
  }

  lemma AllSplit(clients: seq<Phase>)
    requires clients != []
    ensures var k := |clients| - 1;
            && (AllCommitted(clients) <==> AllCommitted(clients[..k]) && clients[k].Committed?)
            && (AllAborted(clients) <==> AllAborted(clients[..k]) && clients[k].Aborted?)
  {
    var k := |clients| - 1;
    assert clients == clients[..k] + [clients[k]];
  }

  lemma {:induction false} VotesBound(clients: seq<Phase>)
    ensures Commits(clients) + Aborts(clients) <= |clients|
    ensures Commits(clients) == |clients| <==> AllCommitted(clients)
    ensures Aborts(clients) == |clients| <==> AllAborted(clients)
  {
    if clients != [] {
      VotesBound(clients[..|clients| - 1]);
      AllSplit(clients);
    }
  }

  /** The counters count the votes, and a flag is set when the votes are unanimous. */
  ghost predicate Counted(s: System) {
    && s.flags.timesCommitted == Commits(s.clients) && s.flags.timesAborted == Aborts(s.clients)
    && (s.clients != [] ==>
          && (s.flags.committed <==> Commits(s.clients) == |s.clients|)
          && (s.flags.aborted <==> Aborts(s.clients) == |s.clients|))
  }

  /** Submit is told by the first client to come, and every other client waits for nothing. */
  ghost predicate SubmitTold(s: System) {
    && (s.flags.submitted <==> exists i :: 0 <= i < |s.clients| && !s.clients[i].Triggered?)
    && (forall i, j :: 0 <= i < j < |s.clients| ==> !(s.clients[i].TellingSubmit? && s.clients[j].TellingSubmit?))
    && multiset(s.log)[SubmitStarts] == (if s.flags.submitted then 1 else 0)
    && (SubmitReturns in s.log <==>
          s.flags.submitted && forall i :: 0 <= i < |s.clients| ==> !s.clients[i].TellingSubmit?)
  }

  ghost predicate OutcomesTold(s: System) {
    && multiset(s.log)[CommitStarts] == (if s.flags.committed then 1 else 0)
    && multiset(s.log)[AbortStarts] == (if s.flags.aborted then 1 else 0)
  }

  /** The inner submit has returned before the inner commit or abort starts. */
  ghost predicate SubmitFirst(log: seq<Event>) {
    forall k :: 0 <= k < |log| && (log[k].CommitStarts? || log[k].AbortStarts?) ==> SubmitReturns in log[..k]
  }

  ghost predicate Invariant(s: System) {
    Counted(s) && SubmitTold(s) && OutcomesTold(s) && SubmitFirst(s.log)
  }

  lemma SubmitFirstAppend(log: seq<Event>, event: Event)
    requires SubmitFirst(log) && (event.CommitStarts? || event.AbortStarts? ==> SubmitReturns in log)
    ensures SubmitFirst(log + [event])
  {
    var all := log + [event];
    forall k | 0 <= k < |all| && (all[k].CommitStarts? || all[k].AbortStarts?) ensures SubmitReturns in all[..k] {
      if k < |log| {
        assert all[..k] == log[..k];
      } else {
        assert all[..k] == log;
      }
    }
  }

  lemma CountedStep(s: System, i: nat, vote: Vote)
    requires Counted(s)
    ensures Counted(Step(s, i, vote))
  {
    if i < |s.clients| {
      var r := Step(s, i, vote);
      VotesAfter(s.clients, i, r.clients[i]);
      assert r.clients == s.clients[i := r.clients[i]];
      VotesBound(s.clients);
      VotesBound(r.clients);
    }
  }

  lemma LogMore(log: seq<Event>, event: Event, e: Event)
    ensures multiset(log + [event])[e] == multiset(log)[e] + if e == event then 1 else 0
    ensures e in log + [event] <==> e in log || e == event
  {}

  /** An event, if any, that is not about submit. */
  lemma LogOther(log: seq<Event>, tell: bool, event: Event)
    requires event.CommitStarts? || event.AbortStarts?
    ensures multiset(Log(log, tell, event))[SubmitStarts] == multiset(log)[SubmitStarts]
    ensures SubmitReturns in Log(log, tell, event) <==> SubmitReturns in log
  {
    LogMore(log, event, SubmitStarts);
    LogMore(log, event, SubmitReturns);
  }

  /** The first client to submit tells. */
  lemma FirstSubmits(s: System, i: nat)
    requires SubmitTold(s) && i < |s.clients| && s.clients[i].Triggered? && !s.flags.submitted
    ensures SubmitTold(s.(flags := s.flags.(submitted := true), clients := s.clients[i := TellingSubmit],
                          log := s.log + [SubmitStarts]))
  {
    LogMore(s.log, SubmitStarts, SubmitStarts);
    LogMore(s.log, SubmitStarts, SubmitReturns);
    var clients := s.clients[i := TellingSubmit];
    assert clients[i].TellingSubmit?;
    assert forall k :: 0 <= k < |clients| && k != i ==> clients[k] == s.clients[k];
  }

  /** A client that neither starts nor ends telling submit changes nothing about it. */
  lemma SubmitKept(s: System, i: nat, p: Phase, flags: Flags, log: seq<Event>)
    requires SubmitTold(s) && i < |s.clients| && !p.TellingSubmit? && !p.Triggered?
    requires s.flags.submitted && flags.submitted && !s.clients[i].TellingSubmit?
    requires multiset(log)[SubmitStarts] == multiset(s.log)[SubmitStarts]
    requires SubmitReturns in log <==> SubmitReturns in s.log
    ensures SubmitTold(System(flags, s.clients[i := p], log))
  {
    var clients := s.clients[i := p];
    assert !clients[i].Triggered?;
    assert forall k :: 0 <= k < |clients| ==> (clients[k].TellingSubmit? <==> s.clients[k].TellingSubmit?);
  }

  /** The client that tells is the only one; when its call returns, submit has returned. */
  lemma SubmitEnds(s: System, i: nat)
    requires SubmitTold(s) && i < |s.clients| && s.clients[i].TellingSubmit?
    ensures SubmitTold(s.(clients := s.clients[i := Submitted], log := s.log + [SubmitReturns]))
  {
    LogMore(s.log, SubmitReturns, SubmitStarts);
    LogMore(s.log, SubmitReturns, SubmitReturns);
    var clients := s.clients[i := Submitted];
    assert !clients[i].Triggered? && !s.clients[i].Triggered?;
    forall k | 0 <= k < |clients| ensures !clients[k].TellingSubmit? {
      assert k < i || k == i || i < k;
    }
  }

  lemma SubmitToldStep(s: System, i: nat, vote: Vote)
    requires SubmitTold(s)
    ensures SubmitTold(Step(s, i, vote))
  {
    if i < |s.clients| {
      StartedSubmitted(s, i);
      hide SubmitTold, Log;
      match s.clients[i]
      case Triggered =>
        if s.flags.submitted {
          NothingLogged(s.log, SubmitStarts);
          SubmitKept(s, i, Submitted, s.flags, s.log);
        } else {
          NothingLogged(s.log, SubmitStarts);
          FirstSubmits(s, i);
        }
      case TellingSubmit => SubmitEnds(s, i);
      case Submitted =>
        var (f, tell) := if vote.Commit? then AfterCommit(s.flags, |s.clients|) else AfterAbort(s.flags, |s.clients|);
        var event := if vote.Commit? then CommitStarts else AbortStarts;
        LogOther(s.log, tell, event);
        SubmitKept(s, i, if vote.Commit? then Committed(tell) else Aborted(tell), f, Log(s.log, tell, event));
      case Committed(_) => SubmitKept(s, i, Committed(false), s.flags, s.log);
      case Aborted(_) => SubmitKept(s, i, Aborted(false), s.flags, s.log);
    }
  }

  lemma NothingLogged(log: seq<Event>, event: Event)
    ensures Log(log, false, event) == log && Log(log, true, event) == log + [event]
  {}

  lemma StartedSubmitted(s: System, i: nat)
    requires SubmitTold(s) && i < |s.clients|
    ensures !s.clients[i].Triggered? ==> s.flags.submitted
  {}

  lemma OutcomesStep(s: System, i: nat, vote: Vote)
    requires Invariant(s)
    ensures OutcomesTold(Step(s, i, vote)) && SubmitFirst(Step(s, i, vote).log)
  {
    hide Commits, Aborts, SubmitFirst;
    if i < |s.clients| {
      var r := Step(s, i, vote);
      assert r.clients == s.clients[i := r.clients[i]];
      CountedStep(s, i, vote);
      VotesBound(s.clients);
      VotesBound(r.clients);
      if s.clients[i].Submitted? && r.log != s.log {
        UnanimousSubmitted(s, i, r.clients[i]);
      }
      if r.log != s.log {
        SubmitFirstAppend(s.log, r.log[|s.log|]);
      }
    }
  }

  /** When the last vote is in, no client is still telling submit. */
  lemma UnanimousSubmitted(s: System, i: nat, p: Phase)
    requires SubmitTold(s) && i < |s.clients| && s.clients[i].Submitted?
    requires AllCommitted(s.clients[i := p]) || AllAborted(s.clients[i := p])
    ensures SubmitReturns in s.log
  {
    var after := s.clients[i := p];
    forall k | 0 <= k < |s.clients| ensures !s.clients[k].TellingSubmit? {
      if k != i {
        assert after[k] == s.clients[k];
      }
    }
    assert !s.clients[i].Triggered?;
  }

  lemma {:induction false} InvariantRun(n: nat, steps: seq<(nat, Vote)>)
    requires n >= 1
    ensures Invariant(Run(n, steps))
  {
    if steps == [] {
      NoVotes(n);
    } else {
      var s := Run(n, steps[..|steps| - 1]);
      var (i, vote) := steps[|steps| - 1];
      InvariantRun(n, steps[..|steps| - 1]);
      CountedStep(s, i, vote);
      SubmitToldStep(s, i, vote);
      OutcomesStep(s, i, vote);
    }
  }

  lemma {:induction false} NoVotes(n: nat)
    ensures Commits(seq(n, _ => Triggered)) == 0 && Aborts(seq(n, _ => Triggered)) == 0
  {
    if n > 0 {
      assert seq(n, _ => Triggered)[..n - 1] == seq(n - 1, _ => Triggered);
      NoVotes(n - 1);
    }
  }

  /**
   In every interleaving the inner interaction is told of submit once any client has
   started and never twice; of at most one of commit and abort, at most once, and only
   when all clients agree; and of neither before its submit has returned.
   */
  lemma ToldOnce(n: nat, steps: seq<(nat, Vote)>)
    requires n >= 1
    ensures var s := Run(n, steps);
            && multiset(s.log)[SubmitStarts] == (if exists i :: 0 <= i < n && !s.clients[i].Triggered? then 1 else 0)
            && multiset(s.log)[CommitStarts] + multiset(s.log)[AbortStarts] <= 1
            && (CommitStarts in s.log <==> AllCommitted(s.clients))
            && (AbortStarts in s.log <==> AllAborted(s.clients))
            && SubmitFirst(s.log)
  {
    InvariantRun(n, steps);
    VotesBound(Run(n, steps).clients);
    var s := Run(n, steps);
    assert CommitStarts in s.log <==> CommitStarts in multiset(s.log);
    assert AbortStarts in s.log <==> AbortStarts in multiset(s.log);
  }
}
