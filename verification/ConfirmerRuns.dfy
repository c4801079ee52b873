/**
 Every interleaving of confirmations with the poller.

 The chain gives the uids of each round.  Calls to the node may fail at any time:
 a block that cannot be fetched is fetched again, and an error that ends the poller
 flushes what still waits.  A confirmation that finds its uid already committed
 reports it and then sends on a channel that nobody reads while it holds the lock:
 the lock is never released, and no critical section runs after it.
 */
module ConfirmerRuns {
  import opened Basics
  import opened Confirmer

  type Chain = nat -> seq<nat>

  /** Where the poller is. */
  datatype Phase =
    | Starting                    // asks for the last round
    | Asking                      // waits for the next round
    | Fetching(last: nat)         // fetches the rounds before last
    | Delivering(left: seq<nat>)  // reports commits
    | Breaking                    // has left its loop
    | Aborting(left: seq<nat>)    // reports aborts

  /**
   The tables, whether the lock is held for ever, the poller with its first round, its
   next round and the uids it collected; and the history: uids registered and, of
   these, rejected, uids reported with the round up to which they were, commits and
   aborts.
   */
  datatype System = System(
    table: Table, stuck: bool, phase: Phase, start: nat, round: nat, uids: seq<nat>,
    registered: set<nat>, rejected: set<nat>, reported: seq<nat>, cursor: nat, commits: seq<nat>, aborts: seq<nat>)

  datatype Step =
    | Register(uid: nat)
    | Status(last: nat)
    | StatusFails
    | FetchBlock
    | FetchFails(cancelled: bool)
    | Report
    | Deliver
    | Flush(order: seq<nat>)

  function Init(): (s: System) {
    System(Table(Some({}), {}), false, Starting, 0, 0, [], {}, {}, [], 0, [], [])
  }

  /** A step that is not enabled leaves the system as it is. */
  ghost function Apply(chain: Chain, s: System, step: Step): (r: System) {
    match step
    case Register(uid) =>
      if s.stuck || uid in s.registered then s
      else
        var (t, c) := AfterConfirm(s.table, uid);
        s.(table := t, registered := s.registered + {uid}, stuck := c.Early?,
           rejected := if c.Rejected? then s.rejected + {uid} else s.rejected,
           commits := if c.Early? then s.commits + [uid] else s.commits)
    case Status(last) =>
      if s.phase.Starting? then
        s.(phase := Asking, start := last + 1, round := last + 1, cursor := last + 1)
      else if s.phase.Asking? then s.(phase := Fetching(last), uids := [])
      else s
    case StatusFails => if s.phase.Starting? || s.phase.Asking? then s.(phase := Breaking) else s
    case FetchBlock =>
      if s.phase.Fetching? && s.round < s.phase.last then
        s.(uids := s.uids + chain(s.round), round := s.round + 1)
      else s
    case FetchFails(cancelled) =>
      if s.phase.Fetching? && s.round < s.phase.last && cancelled then s.(phase := Breaking) else s
    case Report =>
      if s.phase.Fetching? && s.round >= s.phase.last && !s.stuck && s.table.pendings.Some? then
        var (t, matched) := AfterReport(s.table, s.uids);
        s.(table := t, phase := Delivering(matched), reported := s.reported + s.uids, cursor := s.round)
      else s
    case Deliver =>
      (match s.phase
       case Delivering(left) =>
         if left == [] then s.(phase := Asking)
         else s.(phase := Delivering(left[1..]), commits := s.commits + [left[0]])
       case Aborting(left) =>
         if left == [] then s
         else s.(phase := Aborting(left[1..]), aborts := s.aborts + [left[0]])
       case _ => s)
    case Flush(order) =>
      if s.phase.Breaking? && !s.stuck && s.table.pendings.Some? && Enumerates(order, s.table.pendings.value)
      then s.(table := s.table.(pendings := None), phase := Aborting(order))
      else s
  }

  ghost function Run(chain: Chain, steps: seq<Step>): (s: System) {
    if steps == [] then Init()
    else Apply(chain, Run(chain, steps[..|steps| - 1]), steps[|steps| - 1])
  }

  /** The uids of the rounds from a up to b, in order. */
  ghost function Blocks(chain: Chain, a: nat, b: nat): (r: seq<nat>) {
    if b <= a then [] else Blocks(chain, a, b - 1) + chain(b - 1)
  }

  /** No uid appears twice on the chain. */
  ghost predicate UniqueOnChain(chain: Chain) {
    forall a, b :: 0 <= a <= b ==> Distinct(Blocks(chain, a, b))
  }

  lemma {:induction false} BlocksSplit(chain: Chain, a: nat, b: nat, c: nat)
    requires a <= b <= c
    ensures Blocks(chain, a, c) == Blocks(chain, a, b) + Blocks(chain, b, c)
    decreases c
  {
    if b < c {
      BlocksSplit(chain, a, b, c - 1);
    }
  }

  // ---------- What every step keeps ----------

  /** The uids reported are those of every round from the first up to the cursor, once and in order. */
  ghost predicate Polled(chain: Chain, s: System) {
    && s.start <= s.cursor <= s.round
    && s.reported == Blocks(chain, s.start, s.cursor)
    && (s.phase.Fetching? ==> s.uids == Blocks(chain, s.cursor, s.round))
    && (s.phase.Fetching? ==> s.round <= s.cursor || s.round <= s.phase.last)
    && (s.phase.Asking? || s.phase.Delivering? ==> s.cursor == s.round)
  }

  ghost function Outstanding(s: System): (r: seq<nat>) {
    match s.phase
    case Delivering(left) => left
    case _ => []
  }

  ghost function OutstandingAborts(s: System): (r: seq<nat>) {
    match s.phase
    case Aborting(left) => left
    case _ => []
  }

  /** The tables hold what is registered and not yet reported, and what is reported and not yet registered. */
  ghost predicate Tables(s: System) {
    s.table.pendings.Some? ==>
      && s.table.pendings.value == s.registered - Elements(s.reported)
      && s.table.committed == Elements(s.reported) - s.registered
  }

  /** The interactions that were not rejected. */
  ghost function Admitted(s: System): (r: set<nat>) {
    s.registered - s.rejected
  }

  /**
   Every outcome is reported or about to be, once: a commit for every admitted uid that was
   polled and, after the flush, an abort for every one that was not.
   */
  ghost predicate Outcomes(s: System) {
    && Distinct(s.commits + Outstanding(s)) && Distinct(s.aborts + OutstandingAborts(s))
    && s.rejected <= s.registered
    && Elements(s.commits + Outstanding(s)) == Admitted(s) * Elements(s.reported)
    && Elements(s.aborts + OutstandingAborts(s)) ==
       (if s.table.pendings.Some? then {} else Admitted(s) - Elements(s.reported))
    && (s.table.pendings.Some? ==> s.rejected == {} && s.aborts == [] && !s.phase.Aborting?)
    && (s.table.pendings.None? ==> s.phase.Aborting?)
  }

  ghost predicate Invariant(chain: Chain, s: System) {
    Polled(chain, s) && Tables(s) && Outcomes(s)
  }

  lemma PolledStep(chain: Chain, s: System, step: Step)
    requires Polled(chain, s) && (s.phase.Starting? ==> s.start == s.cursor == s.round == 0 && s.reported == [])
    ensures Polled(chain, Apply(chain, s, step))
  {
    if step.Report? {
      BlocksSplit(chain, s.start, s.cursor, s.round);
    }
  }

  lemma RegisterStep(chain: Chain, s: System, uid: nat)
    requires Tables(s) && Outcomes(s)
    ensures Tables(Apply(chain, s, Register(uid))) && Outcomes(Apply(chain, s, Register(uid)))
  {
    var r := Apply(chain, s, Register(uid));
    if !s.stuck && uid !in s.registered && AfterConfirm(s.table, uid).1.Early? {
      EarlyCommit(s.commits, Outstanding(s), uid);
      var c, c' := Elements(s.commits + Outstanding(s)), Elements(r.commits + Outstanding(r));
      assert c' == c + {uid};
      assert r.registered * Elements(r.reported) == s.registered * Elements(s.reported) + {uid};
    }
  }

  lemma EarlyCommit(commits: seq<nat>, left: seq<nat>, uid: nat)
    requires Distinct(commits + left) && uid !in Elements(commits + left)
    ensures Distinct(commits + [uid] + left)
    ensures Elements(commits + [uid] + left) == Elements(commits + left) + {uid}
  {
    var a, b := commits + left, commits + [uid] + left;
    assert forall i :: 0 <= i < |a| ==> a[i] in Elements(a);
    forall i, j | 0 <= i < j < |b| ensures b[i] != b[j] {
      var n := |commits|;
      if i != n && j != n {
        assert b[i] == a[if i < n then i else i - 1] && b[j] == a[if j < n then j else j - 1];
      } else if i == n {
        assert b[j] == a[j - 1] && a[j - 1] in Elements(a);
      } else {
        assert b[i] == a[i] && a[i] in Elements(a);
      }
    }
    assert b == commits + ([uid] + left);
    ElementsAppend(commits, [uid] + left);
    ElementsAppend([uid], left);
    ElementsAppend(commits, left);
    assert Elements([uid]) == {uid};
  }

  lemma DistinctParts(a: seq<nat>, b: seq<nat>)
    requires Distinct(a + b)
    ensures Distinct(a) && Distinct(b) && Elements(a) !! Elements(b)
  {
    var c := a + b;
    assert forall i :: 0 <= i < |a| ==> c[i] == a[i];
    assert forall i :: 0 <= i < |b| ==> c[|a| + i] == b[i];
  }

  lemma DistinctJoin(a: seq<nat>, b: seq<nat>)
    requires Distinct(a) && Distinct(b) && Elements(a) !! Elements(b)
    ensures Distinct(a + b)
  {
    var c := a + b;
    forall i, j | 0 <= i < j < |c| ensures c[i] != c[j] {
      if i < |a| <= j {
        assert a[i] in Elements(a) && b[j - |a|] in Elements(b);
      }
    }
  }

  lemma ReportStep(chain: Chain, s: System)
    requires UniqueOnChain(chain) && Invariant(chain, s)
    ensures Tables(Apply(chain, s, Report)) && Outcomes(Apply(chain, s, Report))
  {
    hide AfterReport, Distinct;
    var r := Apply(chain, s, Report);
    if s.phase.Fetching? && s.round >= s.phase.last && !s.stuck && s.table.pendings.Some? {
      BlocksSplit(chain, s.start, s.cursor, s.round);
      assert Distinct(Blocks(chain, s.start, s.round));
      DistinctParts(s.reported, s.uids);
      ReportMoves(s.table, s.uids);
      ElementsAppend(s.reported, s.uids);
      var matched := AfterReport(s.table, s.uids).1;
      hide Blocks, Polled, UniqueOnChain;
      assert s.commits + Outstanding(s) == s.commits;
      ElementsAppend(s.commits, matched);
      DistinctJoin(s.commits, matched);
      assert r.aborts + OutstandingAborts(r) == [];
    }
  }

  lemma FlushStep(chain: Chain, s: System, order: seq<nat>)
    requires Tables(s) && Outcomes(s)
    ensures Tables(Apply(chain, s, Flush(order))) && Outcomes(Apply(chain, s, Flush(order)))
  {
    var r := Apply(chain, s, Flush(order));
    assert s.aborts == [] ==> s.aborts + order == order;
  }

  lemma OneDelivered(done: seq<nat>, left: seq<nat>)
    ensures left == [] ==> done + left == done
    ensures left != [] ==> done + [left[0]] + left[1..] == done + left
  {}

  lemma DeliverStep(chain: Chain, s: System)
    requires Tables(s) && Outcomes(s)
    ensures Tables(Apply(chain, s, Deliver)) && Outcomes(Apply(chain, s, Deliver))
  {
    hide Elements, Distinct;
    var r := Apply(chain, s, Deliver);
    match s.phase
    case Delivering(left) =>
      OneDelivered(s.commits, left);
      assert s.aborts + [] == s.aborts;
    case Aborting(left) =>
      OneDelivered(s.aborts, left);
      assert s.commits + [] == s.commits;
    case _ =>
  }

  lemma InvariantStep(chain: Chain, s: System, step: Step)
    requires UniqueOnChain(chain) && Invariant(chain, s)
    requires s.phase.Starting? ==> s.start == s.cursor == s.round == 0 && s.reported == []
    ensures Invariant(chain, Apply(chain, s, step))
  {
    PolledStep(chain, s, step);
    match step
    case Register(uid) => RegisterStep(chain, s, uid);
    case Report => ReportStep(chain, s);
    case Flush(order) => FlushStep(chain, s, order);
    case Deliver => DeliverStep(chain, s);
    case _ =>
      var r := Apply(chain, s, step);
      assert Outstanding(r) == Outstanding(s) && OutstandingAborts(r) == OutstandingAborts(s);
  }

  lemma {:induction false} InvariantRun(chain: Chain, steps: seq<Step>)
    requires UniqueOnChain(chain)
    ensures Invariant(chain, Run(chain, steps))
    ensures var s := Run(chain, steps);
            s.phase.Starting? ==> s.start == s.cursor == s.round == 0 && s.reported == []
  {
    if steps == [] {
      InvariantStart(chain);
    } else {
      hide Invariant, Apply;
      InvariantRun(chain, steps[..|steps| - 1]);
      InvariantStep(chain, Run(chain, steps[..|steps| - 1]), steps[|steps| - 1]);
      StartingStep(chain, Run(chain, steps[..|steps| - 1]), steps[|steps| - 1]);
    }
  }

  lemma InvariantStart(chain: Chain)
    ensures Invariant(chain, Init())
  {
    assert Blocks(chain, 0, 0) == [];
    assert Elements([]) == {};
  }

  lemma StartingStep(chain: Chain, s: System, step: Step)
    requires s.phase.Starting? ==> s.start == s.cursor == s.round == 0 && s.reported == []
    ensures var r := Apply(chain, s, step);
            r.phase.Starting? ==> r.start == r.cursor == r.round == 0 && r.reported == []
  {
    hide AfterReport, AfterConfirm, Enumerates;
  }

  // ---------- What an interaction sees ----------

  lemma {:induction false} OnChain(chain: Chain, a: nat, b: nat, uid: nat)
    requires uid in Blocks(chain, a, b)
    ensures exists r: nat :: a <= r < b && uid in chain(r)
  {
    if uid !in chain(b - 1) {
      OnChain(chain, a, b - 1, uid);
    }
  }

  /** In every run an interaction is committed at most once, aborted at most once, and never both. */
  lemma AtMostOneOutcome(chain: Chain, steps: seq<Step>, uid: nat)
    requires UniqueOnChain(chain)
    ensures multiset(Run(chain, steps).commits)[uid] + multiset(Run(chain, steps).aborts)[uid] <= 1
  {
    InvariantRun(chain, steps);
    var s := Run(chain, steps);
    DistinctParts(s.commits, Outstanding(s));
    DistinctParts(s.aborts, OutstandingAborts(s));
    DistinctOnce(s.commits, uid);
    DistinctOnce(s.aborts, uid);
    ElementsAppend(s.commits, Outstanding(s));
    ElementsAppend(s.aborts, OutstandingAborts(s));
    assert uid in s.commits ==> uid in Elements(s.commits);
    assert uid in s.aborts ==> uid in Elements(s.aborts);
  }

  /** The interaction is committed, or its commit is about to be reported. */
  ghost predicate Commits(s: System, uid: nat) {
    uid in s.commits + Outstanding(s)
  }

  ghost predicate Aborts(s: System, uid: nat) {
    uid in s.aborts + OutstandingAborts(s)
  }

  /** In every run, exactly the admitted interactions whose uid is in a round that was polled are committed. */
  lemma CommitsExactly(chain: Chain, steps: seq<Step>, uid: nat)
    requires UniqueOnChain(chain)
    ensures var s := Run(chain, steps);
            Commits(s, uid) <==> uid in Admitted(s) && uid in Blocks(chain, s.start, s.cursor)
  {
    InvariantRun(chain, steps);
    var s := Run(chain, steps);
    assert uid in s.commits + Outstanding(s) <==> uid in Elements(s.commits + Outstanding(s));
  }

  /** In every run, once the poller has flushed, exactly the other admitted interactions are aborted. */
  lemma AbortsExactly(chain: Chain, steps: seq<Step>, uid: nat)
    requires UniqueOnChain(chain)
    ensures var s := Run(chain, steps);
            Aborts(s, uid) <==>
            s.table.pendings.None? && uid in Admitted(s) && uid !in Blocks(chain, s.start, s.cursor)
  {
    InvariantRun(chain, steps);
    var s := Run(chain, steps);
    assert uid in s.aborts + OutstandingAborts(s) <==> uid in Elements(s.aborts + OutstandingAborts(s));
  }

  /** A commit is only reported for a uid that is in a block that was polled. */
  lemma CommittedOnChain(chain: Chain, steps: seq<Step>, uid: nat)
    requires UniqueOnChain(chain) && uid in Run(chain, steps).commits
    ensures var s := Run(chain, steps);
            exists r: nat :: s.start <= r < s.cursor && uid in chain(r)
  {
    CommitsExactly(chain, steps, uid);
    var s := Run(chain, steps);
    OnChain(chain, s.start, s.cursor, uid);
  }

  /** Every interaction is rejected, waits, or has exactly one outcome. */
  lemma OneFate(chain: Chain, steps: seq<Step>, uid: nat)
    requires UniqueOnChain(chain) && uid in Run(chain, steps).registered
    ensures var s := Run(chain, steps);
            (if uid in s.rejected then 1 else 0) + (if uid in Waiters(s.table.pendings) then 1 else 0)
            + (if Commits(s, uid) then 1 else 0) + (if Aborts(s, uid) then 1 else 0) == 1
  {
    InvariantRun(chain, steps);
    CommitsExactly(chain, steps, uid);
    AbortsExactly(chain, steps, uid);
  }

  // ---------- What the poller completes ----------

  /** A report covers every round before the last one known, and no further. */
  lemma ReportsEverything(chain: Chain, steps: seq<Step>)
    requires UniqueOnChain(chain)
    requires Run(chain, steps).phase.Fetching? && Apply(chain, Run(chain, steps), Report).phase.Delivering?
    ensures var s, r := Run(chain, steps), Apply(chain, Run(chain, steps), Report);
            && r.cursor == (if s.cursor >= s.phase.last then s.cursor else s.phase.last)
            && r.reported == Blocks(chain, r.start, r.cursor)
  {
    var s := Run(chain, steps);
    InvariantRun(chain, steps);
    PolledStep(chain, s, Report);
  }

  /** A block that could not be fetched is fetched again: such failures leave no trace in a run. */
  lemma FetchRetried(chain: Chain, before: seq<Step>, after: seq<Step>)
    ensures Run(chain, before + [FetchFails(false)] + after) == Run(chain, before + after)
  {
    RunAppend(chain, before, FetchFails(false));
    RunFrom(chain, before + [FetchFails(false)], after);
    RunFrom(chain, before, after);
  }

  /** The poller leaves its loop when a status cannot be had, or a block while it is cancelled. */
  ghost predicate Ends(s: System, failure: Step) {
    || (failure.StatusFails? && (s.phase.Starting? || s.phase.Asking?))
    || (failure == FetchFails(true) && s.phase.Fetching? && s.round < s.phase.last)
  }

  /** A failure ends the poller, the lock can be had, and order lists the interactions that wait. */
  ghost predicate CanFlush(s: System, failure: Step, order: seq<nat>) {
    Ends(s, failure) && !s.stuck && s.table.pendings.Some? && Enumerates(order, s.table.pendings.value)
  }

  /** Then the flush takes exactly the interactions that wait. */
  lemma FlushTakesAll(chain: Chain, s: System, failure: Step, order: seq<nat>)
    requires CanFlush(s, failure, order)
    ensures var r := Apply(chain, Apply(chain, s, failure), Flush(order));
            && r == s.(table := s.table.(pendings := None), phase := Aborting(order))
            && Elements(OutstandingAborts(r)) == s.table.pendings.value
  {}

  ghost function Delivers(n: nat): (steps: seq<Step>)
    ensures |steps| == n && forall i :: 0 <= i < n ==> steps[i] == Deliver
  {
    seq(n, _ => Deliver)
  }

  /** The steps of a run, from any state. */
  ghost function From(chain: Chain, s: System, steps: seq<Step>): (r: System) {
    if steps == [] then s else Apply(chain, From(chain, s, steps[..|steps| - 1]), steps[|steps| - 1])
  }

  lemma {:induction false} RunFrom(chain: Chain, before: seq<Step>, after: seq<Step>)
    ensures Run(chain, before + after) == From(chain, Run(chain, before), after)
  {
    if after == [] {
      assert before + after == before;
    } else {
      var all, init := before + after, after[..|after| - 1];
      assert all[..|all| - 1] == before + init;
      RunFrom(chain, before, init);
    }
  }

  lemma {:induction false} DeliversAll(chain: Chain, s: System, k: nat)
    requires s.phase.Delivering? || s.phase.Aborting?
    requires k <= |s.phase.left|
    ensures From(chain, s, Delivers(k)) ==
            if s.phase.Delivering? then
              s.(phase := Delivering(s.phase.left[k..]), commits := s.commits + s.phase.left[..k])
            else s.(phase := Aborting(s.phase.left[k..]), aborts := s.aborts + s.phase.left[..k])
  {
    var left := s.phase.left;
    if k == 0 {
      assert left[0..] == left;
      assert s.commits + left[..0] == s.commits && s.aborts + left[..0] == s.aborts;
    } else {
      assert Delivers(k)[..k - 1] == Delivers(k - 1);
      DeliversAll(chain, s, k - 1);
      assert left[k - 1..][1..] == left[k..] && left[..k] == left[..k - 1] + [left[k - 1]];
      assert s.commits + left[..k - 1] + [left[k - 1]] == s.commits + left[..k];
      assert s.aborts + left[..k - 1] + [left[k - 1]] == s.aborts + left[..k];
    }
  }

  /** After a failure that ends the poller, every interaction that waits is aborted, in the order of the flush. */
  lemma FailureAborts(chain: Chain, steps: seq<Step>, failure: Step, order: seq<nat>)
    requires UniqueOnChain(chain) && CanFlush(Run(chain, steps), failure, order)
    ensures Run(chain, steps + [failure] + [Flush(order)] + Delivers(|order|)).aborts == order
  {
    var s := Run(chain, steps);
    InvariantRun(chain, steps);
    FlushTakesAll(chain, s, failure, order);
    RunAppend(chain, steps, failure);
    RunAppend(chain, steps + [failure], Flush(order));
    RunFrom(chain, steps + [failure] + [Flush(order)], Delivers(|order|));
    DeliversAll(chain, Run(chain, steps + [failure] + [Flush(order)]), |order|);
    assert order[..|order|] == order && s.aborts + order == order;
  }

  /** After a report, every interaction that waited for one of its uids is committed. */
  lemma ReportCommits(chain: Chain, steps: seq<Step>)
    requires UniqueOnChain(chain) && Run(chain, steps).phase.Delivering?
    ensures var s := Run(chain, steps);
            var r := Run(chain, steps + Delivers(|s.phase.left|));
            Elements(r.commits) == Admitted(s) * Elements(s.reported)
  {
    var s := Run(chain, steps);
    var left := s.phase.left;
    InvariantRun(chain, steps);
    RunFrom(chain, steps, Delivers(|left|));
    DeliversAll(chain, s, |left|);
    assert left[..|left|] == left;
  }

  lemma {:induction false} AbortsFrom(chain: Chain, s: System, steps: seq<Step>)
    requires s.table.pendings.None? && s.phase.Aborting?
    ensures var r := From(chain, s, steps);
            && r.table.pendings.None? && r.phase.Aborting?
            && r.aborts + OutstandingAborts(r) == s.aborts + OutstandingAborts(s)
  {
    if steps != [] {
      hide Apply;
      AbortsFrom(chain, s, steps[..|steps| - 1]);
      AbortsStep(chain, From(chain, s, steps[..|steps| - 1]), steps[|steps| - 1]);
    }
  }

  /** What the flush has taken is aborted or about to be, whatever happens then. */
  lemma AbortsStay(chain: Chain, before: seq<Step>, after: seq<Step>)
    requires UniqueOnChain(chain) && Run(chain, before).table.pendings.None?
    ensures var s, r := Run(chain, before), Run(chain, before + after);
            && r.table.pendings.None?
            && r.aborts + OutstandingAborts(r) == s.aborts + OutstandingAborts(s)
  {
    hide Run, From;
    InvariantRun(chain, before);
    RunFrom(chain, before, after);
    AbortsFrom(chain, Run(chain, before), after);
  }

  lemma AbortsStep(chain: Chain, s: System, step: Step)
    requires s.table.pendings.None? && s.phase.Aborting?
    ensures var r := Apply(chain, s, step);
            && r.table.pendings.None? && r.phase.Aborting?
            && r.aborts + OutstandingAborts(r) == s.aborts + OutstandingAborts(s)
  {
    if step.Deliver? {
      OneDelivered(s.aborts, s.phase.left);
    }
  }

  lemma {:induction false} DistinctOnce(s: seq<nat>, x: nat)
    requires Distinct(s)
    ensures multiset(s)[x] == if x in s then 1 else 0
  {
    if s != [] {
      var init, last := s[..|s| - 1], s[|s| - 1];
      assert s == init + [last];
      DistinctOnce(init, x);
    }
  }

  /** A registration takes the lock for ever exactly when its uid was reported before, and the book is open. */
  lemma StuckExactly(chain: Chain, steps: seq<Step>, uid: nat)
    requires UniqueOnChain(chain) && !Run(chain, steps).stuck && uid !in Run(chain, steps).registered
    ensures var s := Run(chain, steps);
            Apply(chain, s, Register(uid)).stuck <==>
            s.table.pendings.Some? && uid in Blocks(chain, s.start, s.cursor)
  {
    InvariantRun(chain, steps);
  }

  lemma StuckStep(chain: Chain, s: System, step: Step)
    requires s.stuck
    ensures var r := Apply(chain, s, step);
            r.stuck && r.table == s.table && r.registered == s.registered && r.reported == s.reported
  {
    hide AfterReport, AfterConfirm;
  }

  /** Once an early commit holds the lock, no interaction is registered, reported or flushed any more. */
  lemma {:induction false} StuckForever(chain: Chain, before: seq<Step>, after: seq<Step>)
    requires Run(chain, before).stuck
    ensures var s, r := Run(chain, before), Run(chain, before + after);
            r.stuck && r.table == s.table && r.registered == s.registered && r.reported == s.reported
  {
    hide Apply;
    if after == [] {
      assert before + after == before;
    } else {
      var init := after[..|after| - 1];
      assert (before + after)[..|before + after| - 1] == before + init;
      StuckForever(chain, before, init);
      StuckStep(chain, Run(chain, before + init), after[|after| - 1]);
    }
  }

  lemma RunAppend(chain: Chain, steps: seq<Step>, step: Step)
    ensures Run(chain, steps + [step]) == Apply(chain, Run(chain, steps), step)
  {
    assert (steps + [step])[..|steps|] == steps;
  }

  /** A run that polls one block before anything registers. */
  ghost function Polling(r: nat): (steps: seq<Step>)
    requires r >= 1
  {
    [Status(r - 1)] + [Status(r + 1)] + [FetchBlock] + [Report]
  }

  lemma BlockPolled(chain: Chain, r: nat)
    requires r >= 1
    ensures var s := Run(chain, Polling(r));
            !s.stuck && s.registered == {} && s.table == Table(Some({}), Elements(chain(r)))
  {
    hide Run, AfterReport, Elements, Enumerates, AfterConfirm;
    var a := [Status(r - 1)];
    var b := a + [Status(r + 1)];
    var c := b + [FetchBlock];
    FirstStep(chain, Status(r - 1));
    RunAppend(chain, a, Status(r + 1));
    RunAppend(chain, b, FetchBlock);
    RunAppend(chain, c, Report);
    ReportRemembers(Init().table, chain(r));
    assert Run(chain, b).phase == Fetching(r + 1) && Run(chain, b).round == r;
    assert Run(chain, c).uids == chain(r) && Run(chain, c).table == Init().table;
    assert {} + Elements(chain(r)) == Elements(chain(r));
  }

  /** A block that is polled before one of its transactions registers blocks the confirmer. */
  lemma BlockReached(chain: Chain, r: nat, uid: nat)
    requires r >= 1 && uid in chain(r)
    ensures exists steps :: Run(chain, steps).stuck
  {
    BlockPolled(chain, r);
    RunAppend(chain, Polling(r), Register(uid));
    hide Run, Polling;
    assert Run(chain, Polling(r) + [Register(uid)]).stuck;
  }

  lemma FirstStep(chain: Chain, step: Step)
    ensures Run(chain, [step]) == Apply(chain, Init(), step)
  {
    assert [step][..0] == [];
  }

  /** Polling starts after the last round that was known, so never with round 0. */
  lemma {:induction false} StartPositive(chain: Chain, steps: seq<Step>)
    ensures var s := Run(chain, steps);
            s.start == 0 ==> s.cursor == s.round == 0 && (s.phase.Starting? || s.phase.Breaking? || s.phase.Aborting?)
  {
    if steps != [] {
      hide Apply;
      StartPositive(chain, steps[..|steps| - 1]);
      PositiveStep(chain, Run(chain, steps[..|steps| - 1]), steps[|steps| - 1]);
    }
  }

  lemma PositiveStep(chain: Chain, s: System, step: Step)
    requires s.start == 0 ==> s.cursor == s.round == 0 && (s.phase.Starting? || s.phase.Breaking? || s.phase.Aborting?)
    ensures var r := Apply(chain, s, step);
            r.start == 0 ==> r.cursor == r.round == 0 && (r.phase.Starting? || r.phase.Breaking? || r.phase.Aborting?)
  {
    hide AfterReport, AfterConfirm, Enumerates;
  }

  lemma {:induction false} StuckCause(chain: Chain, steps: seq<Step>)
    requires UniqueOnChain(chain) && Run(chain, steps).stuck
    ensures exists r: nat :: r >= 1 && chain(r) != []
  {
    var before, step := steps[..|steps| - 1], steps[|steps| - 1];
    var s := Run(chain, before);
    if s.stuck {
      StuckCause(chain, before);
    } else {
      StuckExactly(chain, before, step.uid);
      StartPositive(chain, before);
      OnChain(chain, s.start, s.cursor, step.uid);
    }
  }

  /** Some run of the confirmer blocks for ever exactly when some round but the first carries a transaction. */
  lemma BlocksExactly(chain: Chain)
    requires UniqueOnChain(chain)
    ensures (exists steps :: Run(chain, steps).stuck) <==> exists r: nat :: r >= 1 && chain(r) != []
  {
    if steps :| Run(chain, steps).stuck {
      StuckCause(chain, steps);
    }
    if r: nat :| r >= 1 && chain(r) != [] {
      BlockReached(chain, r, chain(r)[0]);
    }
  }
}
