/**
 The slots of a Diem worker: for each account, the next transaction to submit and
 the highest one committed, moved by atomic operations of many goroutines.

 `SendTransaction` is called at most once per index, so a goroutine is named by the
 index it sends.  Each atomic load, add or compare-and-swap is one step, and the
 goroutines interleave in any way; what the blockchain answers is arbitrary.
 */
module DiemSlots {
  import opened Basics

  datatype Counters = Counters(nextToSubmit: int, nextToCommit: int)

  /** Where a goroutine is. */
  datatype Goroutine =
    | NotSent
    | Waiting(slot: int)                    // has its slot, waits for the blockchain
    | CommitLoad(slot: int)                 // commitTxSlot, before the load
    | CommitSwap(slot: int, seen: int)       // commitTxSlot, before the compare-and-swap
    | ResetLoadMin(slot: int)               // resetTxSlot, before the first load
    | ResetLoad(slot: int, min: int)        // resetTxSlot, before the second load
    | ResetSwap(slot: int, min: int, seen: int)  // resetTxSlot, before the compare-and-swap
    | Finished(slot: int)

  datatype Answer = Accepted | Failed | TooOld

  /**
   The counters by account and the goroutines by index; and the history: the answers by
   index, the commits and the resets that have taken effect.
   */
  datatype State = State(
    counters: seq<Counters>, threads: seq<Goroutine>,
    answers: seq<Option<Answer>>, effects: seq<(nat, int)>, resets: set<nat>)

  /** The account that sends each index. */
  type Origins = seq<nat>

  function Init(accounts: nat, origins: Origins): (s: State) {
    State(seq(accounts, _ => Counters(0, 0)), seq(|origins|, _ => NotSent), seq(|origins|, _ => None), [], {})
  }

  ghost predicate WellFormed(origins: Origins, s: State) {
    |s.threads| == |s.answers| == |origins| && forall i :: 0 <= i < |origins| ==> origins[i] < |s.counters|
  }

  /** One atomic step of the goroutine that sends index i. */
  function Step(origins: Origins, s: State, i: nat, answer: Answer): (r: State)
    requires WellFormed(origins, s)
    ensures WellFormed(origins, r) && |r.counters| == |s.counters|
  {
    if i >= |s.threads| then s
    else
      var a := origins[i];
      var c := s.counters[a];
      match s.threads[i]
      case NotSent =>
        s.(counters := s.counters[a := c.(nextToSubmit := c.nextToSubmit + 1)],
           threads := s.threads[i := Waiting(c.nextToSubmit)])
      case Waiting(slot) =>
        var next :=
          match answer
          case Accepted => CommitLoad(slot)
          case Failed => ResetLoadMin(slot)
          case TooOld => Finished(slot);
        s.(threads := s.threads[i := next], answers := s.answers[i := Some(answer)])
      case CommitLoad(slot) =>
        if c.nextToCommit >= slot then
          s.(threads := s.threads[i := Finished(slot)], effects := s.effects + [(a, slot)])
        else s.(threads := s.threads[i := CommitSwap(slot, c.nextToCommit)])
      case CommitSwap(slot, seen) =>
        if c.nextToCommit == seen then
          s.(counters := s.counters[a := c.(nextToCommit := slot)],
             threads := s.threads[i := Finished(slot)], effects := s.effects + [(a, slot)])
        else s.(threads := s.threads[i := CommitLoad(slot)])
      case ResetLoadMin(slot) =>
        s.(threads := s.threads[i := ResetLoad(slot, c.nextToCommit)])
      case ResetLoad(slot, min) =>
        if slot < min || c.nextToSubmit <= slot then s.(threads := s.threads[i := Finished(slot)])
        else s.(threads := s.threads[i := ResetSwap(slot, min, c.nextToSubmit)])
      case ResetSwap(slot, _, seen) =>
        if c.nextToSubmit == seen then
          s.(counters := s.counters[a := c.(nextToSubmit := slot)],
             threads := s.threads[i := Finished(slot)], resets := s.resets + {a})
        else s.(threads := s.threads[i := ResetLoadMin(slot)])
      case Finished(_) => s
  }

  /** A schedule: which goroutine moves, and what the blockchain answers it. */
  type Schedule = seq<(nat, Answer)>

  function Run(accounts: nat, origins: Origins, steps: Schedule): (s: State)
    requires forall i :: 0 <= i < |origins| ==> origins[i] < accounts
    ensures WellFormed(origins, s) && |s.counters| == accounts
  {
    if steps == [] then Init(accounts, origins)
    else
      var (i, answer) := steps[|steps| - 1];
      Step(origins, Run(accounts, origins, steps[..|steps| - 1]), i, answer)
  }

  // ---------- Valid slots ----------

  /** How many transactions an account has: the length of its queue. */
  function QueueLength(origins: Origins, a: nat): (n: nat) {
    if origins == [] then 0
    else QueueLength(origins[..|origins| - 1], a) + if origins[|origins| - 1] == a then 1 else 0
  }

  /** How many of them have been sent. */
  function SentCount(origins: Origins, threads: seq<Goroutine>, a: nat): (n: nat)
    requires |threads| == |origins|
  {
    if origins == [] then 0
    else
      var k := |origins| - 1;
      SentCount(origins[..k], threads[..k], a) + if origins[k] == a && !threads[k].NotSent? then 1 else 0
  }

  lemma {:induction false} SentAtMostAll(origins: Origins, threads: seq<Goroutine>, a: nat)
    requires |threads| == |origins|
    ensures SentCount(origins, threads, a) <= QueueLength(origins, a)
  {
    if origins != [] {
      SentAtMostAll(origins[..|origins| - 1], threads[..|origins| - 1], a);
    }
  }

  /** Moving a goroutine counts it exactly when it leaves NotSent. */
  lemma {:induction false} SentAfter(origins: Origins, threads: seq<Goroutine>, i: nat, g: Goroutine, a: nat)
    requires |threads| == |origins| && i < |threads| && !g.NotSent?
    ensures SentCount(origins, threads[i := g], a) ==
            SentCount(origins, threads, a) + if origins[i] == a && threads[i].NotSent? then 1 else 0
  {
    var k := |origins| - 1;
    if i < k {
      assert threads[i := g][..k] == threads[..k][i := g];
      SentAfter(origins[..k], threads[..k], i, g, a);
    } else {
      assert threads[i := g][..k] == threads[..k];
    }
  }

  /** A goroutine's slot is below the number of transactions its account has sent. */
  ghost predicate SlotInRange(sent: int, g: Goroutine) {
    match g
    case NotSent => true
    case ResetSwap(slot, min, seen) => 0 <= slot < sent && min <= slot < seen
    case CommitSwap(slot, seen) => 0 <= slot < sent && seen < slot
    case _ => 0 <= g.slot < sent
  }

  ghost predicate SlotsInRange(origins: Origins, s: State)
    requires WellFormed(origins, s)
  {
    && (forall a :: 0 <= a < |s.counters| ==>
          0 <= s.counters[a].nextToSubmit <= SentCount(origins, s.threads, a))
    && (forall i :: 0 <= i < |s.threads| ==>
          SlotInRange(SentCount(origins, s.threads, origins[i]), s.threads[i]))
  }

  lemma SlotsStep(origins: Origins, s: State, i: nat, answer: Answer)
    requires WellFormed(origins, s) && SlotsInRange(origins, s)
    ensures SlotsInRange(origins, Step(origins, s, i, answer))
  {
    hide SentCount;
    var r := Step(origins, s, i, answer);
    if i < |s.threads| {
      assert SlotInRange(SentCount(origins, s.threads, origins[i]), s.threads[i]);
      assert r.threads == s.threads[i := r.threads[i]];
      forall a: nat
        ensures SentCount(origins, r.threads, a) ==
                SentCount(origins, s.threads, a) + if origins[i] == a && s.threads[i].NotSent? then 1 else 0
      {
        SentAfter(origins, s.threads, i, r.threads[i], a);
      }
    }
  }

  // ---------- Committed slots ----------

  /** The highest slot of an account whose commit has taken effect; 0 when there is none. */
  function Highest(effects: seq<(nat, int)>, a: nat): (r: int) {
    if effects == [] then 0
    else
      var before, (account, slot) := Highest(effects[..|effects| - 1], a), effects[|effects| - 1];
      if account == a && slot > before then slot else before
  }

  ghost predicate CommitsRecorded(s: State) {
    forall a :: 0 <= a < |s.counters| ==> s.counters[a].nextToCommit == Highest(s.effects, a)
  }

  lemma HighestAppend(effects: seq<(nat, int)>, a: nat, slot: int, b: nat)
    ensures Highest(effects + [(a, slot)], b) ==
            if a == b && slot > Highest(effects, b) then slot else Highest(effects, b)
  {
    assert (effects + [(a, slot)])[..|effects|] == effects;
  }

  lemma CommitsStep(origins: Origins, s: State, i: nat, answer: Answer)
    requires WellFormed(origins, s) && SlotsInRange(origins, s) && CommitsRecorded(s)
    ensures CommitsRecorded(Step(origins, s, i, answer))
    ensures forall a :: 0 <= a < |s.counters| ==>
              s.counters[a].nextToCommit <= Step(origins, s, i, answer).counters[a].nextToCommit
  {
    hide Highest, SentCount;
    if i < |s.threads| {
      var g := s.threads[i];
      assert SlotInRange(SentCount(origins, s.threads, origins[i]), g);
      if !g.NotSent? {
        forall b: nat
          ensures Highest(s.effects + [(origins[i], g.slot)], b) ==
                  if origins[i] == b && g.slot > Highest(s.effects, b) then g.slot else Highest(s.effects, b)
        {
          HighestAppend(s.effects, origins[i], g.slot, b);
        }
      }
    }
  }

  // ---------- Whole runs ----------

  lemma {:induction false} InitSent(origins: Origins, a: nat)
    ensures SentCount(origins, seq(|origins|, _ => NotSent), a) == 0
  {
    if origins != [] {
      var k := |origins| - 1;
      assert seq(|origins|, _ => NotSent)[..k] == seq(k, _ => NotSent);
      InitSent(origins[..k], a);
    }
  }

  lemma {:induction false} RunKeeps(accounts: nat, origins: Origins, steps: Schedule)
    requires forall i :: 0 <= i < |origins| ==> origins[i] < accounts
    ensures SlotsInRange(origins, Run(accounts, origins, steps))
    ensures CommitsRecorded(Run(accounts, origins, steps))
  {
    if steps == [] {
      forall a: nat ensures SentCount(origins, Init(accounts, origins).threads, a) == 0 {
        InitSent(origins, a);
      }
    } else {
      var (i, answer) := steps[|steps| - 1];
      var s := Run(accounts, origins, steps[..|steps| - 1]);
      RunKeeps(accounts, origins, steps[..|steps| - 1]);
      SlotsStep(origins, s, i, answer);
      CommitsStep(origins, s, i, answer);
    }
  }

  /** Every slot that is handed out is an index of its account's queue, in any interleaving. */
  lemma SlotsAreValid(accounts: nat, origins: Origins, steps: Schedule, i: nat)
    requires forall k :: 0 <= k < |origins| ==> origins[k] < accounts
    requires i < |origins|
    ensures var g := Run(accounts, origins, steps).threads[i];
            !g.NotSent? ==> 0 <= g.slot < QueueLength(origins, origins[i])
  {
    RunKeeps(accounts, origins, steps);
    var s := Run(accounts, origins, steps);
    assert SlotInRange(SentCount(origins, s.threads, origins[i]), s.threads[i]);
    SentAtMostAll(origins, s.threads, origins[i]);
  }

  /** The committed counter never decreases as a run goes on. */
  lemma {:induction false} CommitsOnlyGrow(accounts: nat, origins: Origins, before: Schedule, after: Schedule, a: nat)
    requires forall k :: 0 <= k < |origins| ==> origins[k] < accounts
    requires a < accounts
    ensures Run(accounts, origins, before).counters[a].nextToCommit
            <= Run(accounts, origins, before + after).counters[a].nextToCommit
  {
    if after == [] {
      assert before + after == before;
    } else {
      var all, init := before + after, after[..|after| - 1];
      assert all[..|all| - 1] == before + init;
      CommitsOnlyGrow(accounts, origins, before, init, a);
      RunKeeps(accounts, origins, before + init);
      CommitsStep(origins, Run(accounts, origins, before + init), all[|all| - 1].0, all[|all| - 1].1);
    }
  }

  // ---------- Answers ----------

  /** A goroutine is where its answer sends it; one that was accepted and is finished has committed. */
  ghost predicate Follows(answer: Option<Answer>, g: Goroutine, a: nat, effects: seq<(nat, int)>) {
    match g
    case NotSent => answer == None
    case Waiting(_) => answer == None
    case CommitLoad(_) => answer == Some(Accepted)
    case CommitSwap(_, _) => answer == Some(Accepted)
    case Finished(slot) => answer.Some? && (answer.value.Accepted? ==> (a, slot) in effects)
    case _ => answer == Some(Failed)
  }

  /** Some transaction of an account got an answer. */
  ghost predicate Got(origins: Origins, answers: seq<Option<Answer>>, a: nat, answer: Answer) {
    exists i :: 0 <= i < |origins| && i < |answers| && origins[i] == a && answers[i] == Some(answer)
  }

  ghost predicate AnswersFollowed(origins: Origins, s: State)
    requires WellFormed(origins, s)
  {
    && (forall i :: 0 <= i < |s.threads| ==> Follows(s.answers[i], s.threads[i], origins[i], s.effects))
    && (forall a :: a in s.resets ==> Got(origins, s.answers, a, Failed))
    && (forall e :: e in s.effects ==> Got(origins, s.answers, e.0, Accepted))
  }

  lemma GotStays(origins: Origins, before: seq<Option<Answer>>, after: seq<Option<Answer>>, a: nat, answer: Answer)
    requires |before| == |after| && forall k :: 0 <= k < |before| && before[k].Some? ==> after[k] == before[k]
    ensures Got(origins, before, a, answer) ==> Got(origins, after, a, answer)
  {}

  /** Answers stay, and only an answered transaction has an effect. */
  lemma StepCauses(origins: Origins, s: State, i: nat, answer: Answer)
    requires WellFormed(origins, s) && i < |origins|
    requires Follows(s.answers[i], s.threads[i], origins[i], s.effects)
    ensures var r := Step(origins, s, i, answer);
            && (forall k :: 0 <= k < |s.answers| && s.answers[k].Some? ==> r.answers[k] == s.answers[k])
            && (r.resets != s.resets ==> r.resets == s.resets + {origins[i]} && r.answers[i] == Some(Failed))
            && (r.effects != s.effects ==>
                  |r.effects| == |s.effects| + 1 && r.effects[|s.effects|].0 == origins[i] && r.answers[i] == Some(Accepted))
            && s.effects <= r.effects
            && Follows(r.answers[i], r.threads[i], origins[i], r.effects)
            && r.threads == s.threads[i := r.threads[i]] && r.answers == s.answers[i := r.answers[i]]
  {}

  lemma AnswersStep(origins: Origins, s: State, i: nat, answer: Answer)
    requires WellFormed(origins, s) && AnswersFollowed(origins, s)
    ensures AnswersFollowed(origins, Step(origins, s, i, answer))
  {
    if i < |origins| {
      hide Step, Follows, Got;
      var r := Step(origins, s, i, answer);
      StepCauses(origins, s, i, answer);
      forall k | 0 <= k < |r.threads| ensures Follows(r.answers[k], r.threads[k], origins[k], r.effects) {
        if k != i {
          FollowsStays(s.answers[k], s.threads[k], origins[k], s.effects, r.effects);
        }
      }
      forall a | a in r.resets ensures Got(origins, r.answers, a, Failed) {
        GotStays(origins, s.answers, r.answers, a, Failed);
        GotOne(origins, r.answers, i, Failed);
      }
      forall e | e in r.effects ensures Got(origins, r.answers, e.0, Accepted) {
        GotStays(origins, s.answers, r.answers, e.0, Accepted);
        GotOne(origins, r.answers, i, Accepted);
        assert e in s.effects || e == r.effects[|s.effects|];
      }
    }
  }

  lemma FollowsStays(answer: Option<Answer>, g: Goroutine, a: nat, before: seq<(nat, int)>, after: seq<(nat, int)>)
    requires Follows(answer, g, a, before) && before <= after
    ensures Follows(answer, g, a, after)
  {}

  lemma GotOne(origins: Origins, answers: seq<Option<Answer>>, i: nat, answer: Answer)
    requires i < |origins| && i < |answers|
    ensures answers[i] == Some(answer) ==> Got(origins, answers, origins[i], answer)
  {}

  lemma {:induction false} AnswersRun(accounts: nat, origins: Origins, steps: Schedule)
    requires forall k :: 0 <= k < |origins| ==> origins[k] < accounts
    ensures AnswersFollowed(origins, Run(accounts, origins, steps))
  {
    if steps != [] {
      var init := steps[..|steps| - 1];
      AnswersRun(accounts, origins, init);
      AnswersStep(origins, Run(accounts, origins, init), steps[|steps| - 1].0, steps[|steps| - 1].1);
    }
  }

  lemma {:induction false} HighestBounds(effects: seq<(nat, int)>, a: nat, slot: int)
    requires (a, slot) in effects
    ensures slot <= Highest(effects, a)
  {
    var init, last := effects[..|effects| - 1], effects[|effects| - 1];
    assert effects == init + [last];
    if last != (a, slot) {
      HighestBounds(init, a, slot);
    }
  }

  /** In every interleaving, a transaction that was accepted and is finished has committed its slot. */
  lemma AcceptedCommits(accounts: nat, origins: Origins, steps: Schedule, i: nat)
    requires (forall k :: 0 <= k < |origins| ==> origins[k] < accounts) && i < |origins|
    ensures var s := Run(accounts, origins, steps);
            s.threads[i].Finished? && s.answers[i] == Some(Accepted) ==>
              && (origins[i], s.threads[i].slot) in s.effects
              && s.threads[i].slot <= s.counters[origins[i]].nextToCommit
  {
    var s := Run(accounts, origins, steps);
    AnswersRun(accounts, origins, steps);
    RunKeeps(accounts, origins, steps);
    assert Follows(s.answers[i], s.threads[i], origins[i], s.effects);
    if s.threads[i].Finished? && s.answers[i] == Some(Accepted) {
      HighestBounds(s.effects, origins[i], s.threads[i].slot);
    }
  }

  /** Only accepted transactions commit, and only failed ones reset. */
  lemma EffectsHaveCauses(accounts: nat, origins: Origins, steps: Schedule, a: nat)
    requires forall k :: 0 <= k < |origins| ==> origins[k] < accounts
    ensures var s := Run(accounts, origins, steps);
            && (a in s.resets ==> Got(origins, s.answers, a, Failed))
            && (a < accounts && s.counters[a].nextToCommit > 0 ==> Got(origins, s.answers, a, Accepted))
  {
    AnswersRun(accounts, origins, steps);
    RunKeeps(accounts, origins, steps);
    HighestIsThere(Run(accounts, origins, steps).effects, a);
  }

  lemma {:induction false} HighestIsThere(effects: seq<(nat, int)>, a: nat)
    ensures Highest(effects, a) > 0 ==> (a, Highest(effects, a)) in effects
  {
    if effects != [] {
      var init, last := effects[..|effects| - 1], effects[|effects| - 1];
      HighestIsThere(init, a);
      assert effects == init + [last];
      assert last in effects;
      assert Highest(effects, a) == if last.0 == a && last.1 > Highest(init, a) then last.1 else Highest(init, a);
    }
  }

  // ---------- A goroutine on its own ----------

  /** Some steps of one goroutine, the first with the given answer. */
  function Alone(origins: Origins, s: State, i: nat, answer: Answer, n: nat): (r: State)
    requires WellFormed(origins, s)
    ensures WellFormed(origins, r)
  {
    if n == 0 then s else Step(origins, Alone(origins, s, i, answer, n - 1), i, answer)
  }

  /** Sending takes the next slot. */
  lemma SendsNext(origins: Origins, s: State, i: nat, answer: Answer)
    requires WellFormed(origins, s) && i < |origins| && s.threads[i].NotSent?
    ensures var a := origins[i];
            var r := Step(origins, s, i, answer);
            && r.threads == s.threads[i := Waiting(s.counters[a].nextToSubmit)]
            && r.counters == s.counters[a := s.counters[a].(nextToSubmit := s.counters[a].nextToSubmit + 1)]
  {}

  /** Accepted and undisturbed, it raises the committed slot to its own, and changes no other counter. */
  lemma CommitsAlone(origins: Origins, s: State, i: nat)
    requires WellFormed(origins, s) && i < |origins| && s.threads[i].Waiting?
    ensures var a, slot := origins[i], s.threads[i].slot;
            var r := Alone(origins, s, i, Accepted, 3);
            && r.threads == s.threads[i := Finished(slot)]
            && r.counters == s.counters[a := Counters(s.counters[a].nextToSubmit,
                 if slot > s.counters[a].nextToCommit then slot else s.counters[a].nextToCommit)]
  {
    var s1 := Step(origins, s, i, Accepted);
    var s2 := Step(origins, s1, i, Accepted);
    assert Alone(origins, s, i, Accepted, 1) == s1;
    assert Alone(origins, s, i, Accepted, 2) == s2;
  }

  /** Failed and undisturbed, it takes the next slot back to its own, unless that is committed or not reached. */
  lemma ResetsAlone(origins: Origins, s: State, i: nat)
    requires WellFormed(origins, s) && i < |origins| && s.threads[i].Waiting?
    ensures var a, slot := origins[i], s.threads[i].slot;
            var c := s.counters[a];
            var r := Alone(origins, s, i, Failed, 4);
            && r.threads == s.threads[i := Finished(slot)]
            && r.counters == s.counters[a := Counters(
                 if c.nextToCommit <= slot < c.nextToSubmit then slot else c.nextToSubmit, c.nextToCommit)]
  {
    var s1 := Step(origins, s, i, Failed);
    var s2 := Step(origins, s1, i, Failed);
    var s3 := Step(origins, s2, i, Failed);
    assert Alone(origins, s, i, Failed, 1) == s1;
    assert Alone(origins, s, i, Failed, 2) == s2;
    assert Alone(origins, s, i, Failed, 3) == s3;
  }

  /** Refused as too old, it leaves every counter. */
  lemma TooOldAlone(origins: Origins, s: State, i: nat)
    requires WellFormed(origins, s) && i < |origins| && s.threads[i].Waiting?
    ensures var r := Step(origins, s, i, TooOld);
            r.threads == s.threads[i := Finished(s.threads[i].slot)] && r.counters == s.counters
  {}

  // ---------- Resets ----------

  /** Without a reset the next slot of an account is the number it sent, and its slots differ; after one it is behind. */
  ghost predicate Orderly(origins: Origins, s: State)
    requires WellFormed(origins, s)
  {
    && (forall a :: 0 <= a < |s.counters| ==>
          (s.counters[a].nextToSubmit < SentCount(origins, s.threads, a) <==> a in s.resets))
    && (forall i, j | 0 <= i < j < |s.threads| && origins[i] == origins[j] && origins[i] !in s.resets ::
          s.threads[i].NotSent? || s.threads[j].NotSent? || s.threads[i].slot != s.threads[j].slot)
  }

  lemma OrderlyStep(origins: Origins, s: State, i: nat, answer: Answer)
    requires WellFormed(origins, s) && SlotsInRange(origins, s) && Orderly(origins, s)
    ensures Orderly(origins, Step(origins, s, i, answer))
  {
    hide SentCount;
    var r := Step(origins, s, i, answer);
    if i < |s.threads| {
      assert r.threads == s.threads[i := r.threads[i]];
      forall a: nat
        ensures SentCount(origins, r.threads, a) ==
                SentCount(origins, s.threads, a) + if origins[i] == a && s.threads[i].NotSent? then 1 else 0
      {
        SentAfter(origins, s.threads, i, r.threads[i], a);
      }
      assert forall k :: 0 <= k < |s.threads| ==>
        SlotInRange(SentCount(origins, s.threads, origins[k]), s.threads[k]);
    }
  }

  lemma {:induction false} OrderlyRun(accounts: nat, origins: Origins, steps: Schedule)
    requires forall k :: 0 <= k < |origins| ==> origins[k] < accounts
    ensures Orderly(origins, Run(accounts, origins, steps))
  {
    if steps == [] {
      forall a: nat ensures SentCount(origins, Init(accounts, origins).threads, a) == 0 {
        InitSent(origins, a);
      }
    } else {
      var init := steps[..|steps| - 1];
      OrderlyRun(accounts, origins, init);
      RunKeeps(accounts, origins, init);
      OrderlyStep(origins, Run(accounts, origins, init), steps[|steps| - 1].0, steps[|steps| - 1].1);
    }
  }

  /**
   In every interleaving, the next slot of an account is the number of its transactions that
   were sent exactly when no reset of that account has taken effect, and then none of them
   was sent twice.
   */
  lemma ResetsExactly(accounts: nat, origins: Origins, steps: Schedule, a: nat)
    requires (forall k :: 0 <= k < |origins| ==> origins[k] < accounts) && a < accounts
    ensures var s := Run(accounts, origins, steps);
            && (s.counters[a].nextToSubmit == SentCount(origins, s.threads, a) <==> a !in s.resets)
            && (a !in s.resets ==>
                  forall i, j | 0 <= i < j < |origins| && origins[i] == origins[j] == a ::
                    s.threads[i].NotSent? || s.threads[j].NotSent? || s.threads[i].slot != s.threads[j].slot)
  {
    OrderlyRun(accounts, origins, steps);
    RunKeeps(accounts, origins, steps);
  }

  predicate Resetting(g: Goroutine) {
    g.ResetLoadMin? || g.ResetLoad? || g.ResetSwap?
  }

  /** Only a transaction that fails resets. */
  lemma {:induction false} NoFailureNoReset(accounts: nat, origins: Origins, steps: Schedule)
    requires forall k :: 0 <= k < |origins| ==> origins[k] < accounts
    requires forall k :: 0 <= k < |steps| ==> !steps[k].1.Failed?
    ensures var s := Run(accounts, origins, steps);
            s.resets == {} && forall i :: 0 <= i < |s.threads| ==> !Resetting(s.threads[i])
  {
    if steps != [] {
      NoFailureNoReset(accounts, origins, steps[..|steps| - 1]);
    }
  }
}
