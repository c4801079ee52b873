/**
 Every interleaving of Add, Proposed and any number of Gets on one cache.

 Add, Proposed and the locked part of Get are one step each.  A Get is waiting,
 or has taken the token off the channel and has not yet run its locked part.
 */
module CommandCacheRuns {
  import opened Basics
  import opened CommandCache

  /** One successful extraction: the record it saw, the commands it examined, the batch it returned. */
  datatype Extraction = Extraction(seqNumbers: map<nat, nat>, examined: seq<Command>, batch: Batch)

  /** The cache, the Gets by phase, and the history: commands accepted, extractions, commands proposed. */
  datatype System = System(
    cache: State, waiting: nat, checking: nat,
    accepted: seq<Command>, extractions: seq<Extraction>, proposed: seq<Command>)

  datatype Step =
    | Add(cmd: Command)
    | Propose(batch: Batch)
    | StartGet
    | Cancel
    | TakeToken
    | RunCheck

  function Init(batchSize: nat): (s: System) {
    System(State(batchSize, map[], [], false), 0, 0, [], [], [])
  }

  /** A step that is not enabled leaves the system as it is. */
  function Apply(s: System, step: Step): (r: System) {
    match step
    case Add(cmd) =>
      s.(cache := AfterAdd(s.cache, cmd),
         accepted := if Duplicate(s.cache.seqNumbers, cmd) then s.accepted else s.accepted + [cmd])
    case Propose(batch) =>
      s.(cache := AfterProposed(s.cache, batch), proposed := s.proposed + batch)
    case StartGet => s.(waiting := s.waiting + 1)
    case Cancel => if s.waiting == 0 then s else s.(waiting := s.waiting - 1)
    case TakeToken =>
      if s.waiting == 0 || !s.cache.ready then s
      else s.(cache := s.cache.(ready := false), waiting := s.waiting - 1, checking := s.checking + 1)
    case RunCheck =>
      if s.checking == 0 then s
      else
        match Check(s.cache)
        case (c, None) => s.(cache := c, waiting := s.waiting + 1, checking := s.checking - 1)
        case (c, Some(batch)) =>
          var examined := s.cache.cache[..|s.cache.cache| - |CheckedCache(s.cache)|];
          s.(cache := c, checking := s.checking - 1,
             extractions := s.extractions + [Extraction(s.cache.seqNumbers, examined, batch)])
  }

  /** The cache after a check. */
  function CheckedCache(s: State): (r: seq<Command>)
    ensures |r| <= |s.cache|
  {
    Check(s).0.cache
  }

  function Run(batchSize: nat, steps: seq<Step>): (s: System) {
    if steps == [] then Init(batchSize)
    else Apply(Run(batchSize, steps[..|steps| - 1]), steps[|steps| - 1])
  }

  // ---------- No lost wakeup ----------

  /** A full batch of fresh commands is either signalled or about to be looked at. */
  predicate Awake(s: System) {
    |Fresh(s.cache.seqNumbers, s.cache.cache)| >= s.cache.batchSize ==> s.cache.ready || s.checking > 0
  }

  lemma {:induction false} FreshAtMostAll(seqNumbers: map<nat, nat>, cmds: seq<Command>)
    ensures |Fresh(seqNumbers, cmds)| <= |cmds|
  {
    if cmds != [] {
      FreshAtMostAll(seqNumbers, cmds[..|cmds| - 1]);
    }
  }

  /** A cache shorter than the word with a full batch of fresh commands passes the length test. */
  lemma FreshImpliesFull(s: State)
    requires |s.cache| < WORD
    requires |Fresh(s.seqNumbers, s.cache)| >= s.batchSize
    ensures HasFullBatch(s)
  {
    FreshAtMostAll(s.seqNumbers, s.cache);
  }

  lemma {:induction false} ProposedRecords(s: State, batch: Batch)
    ensures var r := AfterProposed(s, batch);
            && r.batchSize == s.batchSize && r.cache == s.cache && r.ready == s.ready
            && forall c :: Recorded(s.seqNumbers, c) <= Recorded(r.seqNumbers, c)
  {
    if batch != [] {
      ProposedRecords(s, batch[..|batch| - 1]);
    }
  }

  lemma {:induction false} FreshShrinks(before: map<nat, nat>, after: map<nat, nat>, cmds: seq<Command>)
    requires forall c :: Recorded(before, c) <= Recorded(after, c)
    ensures |Fresh(after, cmds)| <= |Fresh(before, cmds)|
  {
    if cmds != [] {
      FreshShrinks(before, after, cmds[..|cmds| - 1]);
    }
  }

  /** An extraction that fails has looked at every command and found too few fresh ones. */
  lemma ExtractFails(s: State)
    ensures TryExtract(s).None? ==> |Fresh(s.seqNumbers, s.cache)| < s.batchSize
    ensures TryExtract(s).Some? ==> Examined(s, TryExtract(s).value.0)
  {
    ExaminedCountExamines(s, 0);
    assert s.cache[..|s.cache|] == s.cache;
  }

  lemma AwakeStep(s: System, step: Step)
    requires s.cache.batchSize >= 1
    requires |Apply(s, step).cache.cache| < WORD && |s.cache.cache| < WORD
    requires Awake(s)
    ensures Awake(Apply(s, step))
  {
    hide Fresh, ExaminedCount, TryExtract, U32, AfterProposed;
    var r := Apply(s, step);
    match step
    case Add(cmd) =>
      if |Fresh(r.cache.seqNumbers, r.cache.cache)| >= r.cache.batchSize {
        FreshImpliesFull(r.cache);
      }
    case Propose(batch) =>
      ProposedRecords(s.cache, batch);
      FreshShrinks(s.cache.seqNumbers, r.cache.seqNumbers, s.cache.cache);
    case RunCheck =>
      ExtractFails(s.cache);
      if |Fresh(r.cache.seqNumbers, r.cache.cache)| >= r.cache.batchSize {
        FreshImpliesFull(r.cache);
      }
    case _ =>
  }

  lemma {:induction false} BatchSizeKept(batchSize: nat, steps: seq<Step>)
    ensures Run(batchSize, steps).cache.batchSize == batchSize
  {
    if steps != [] {
      BatchSizeKept(batchSize, steps[..|steps| - 1]);
      var s, step := Run(batchSize, steps[..|steps| - 1]), steps[|steps| - 1];
      if step.Propose? {
        ProposedRecords(s.cache, step.batch);
      }
    }
  }

  /** The cache never holds more than so many commands. */
  ghost predicate Within(batchSize: nat, steps: seq<Step>, limit: nat) {
    forall k :: 0 <= k <= |steps| ==> |Run(batchSize, steps[..k]).cache.cache| <= limit
  }

  lemma WithinStep(batchSize: nat, steps: seq<Step>, step: Step, limit: nat)
    ensures Within(batchSize, steps + [step], limit) <==>
            Within(batchSize, steps, limit) && |Run(batchSize, steps + [step]).cache.cache| <= limit
  {
    var more := steps + [step];
    assert more[..|more|] == more;
    assert forall k :: 0 <= k <= |steps| ==> more[..k] == steps[..k];
  }

  lemma {:induction false} AwakeRun(batchSize: nat, steps: seq<Step>)
    requires batchSize >= 1 && Within(batchSize, steps, WORD - 1)
    ensures Awake(Run(batchSize, steps))
  {
    if steps != [] {
      var before := steps[..|steps| - 1];
      assert steps == before + [steps[|steps| - 1]];
      WithinStep(batchSize, before, steps[|steps| - 1], WORD - 1);
      AwakeRun(batchSize, before);
      assert before[..|before|] == before;
      BatchSizeKept(batchSize, before);
      AwakeStep(Run(batchSize, before), steps[|steps| - 1]);
    }
  }

  /** The system after the same command was added n times; the signal is set by the first full batch. */
  function Loaded(batchSize: nat, cmd: Command, n: nat): (s: System) {
    System(State(batchSize, map[], seq(n, _ => cmd), n >= batchSize), 0, 0, seq(n, _ => cmd), [], [])
  }

  lemma LoadedStep(batchSize: nat, cmd: Command, n: nat)
    requires cmd.sequence > 0 && 1 <= batchSize < WORD && n < WORD
    ensures Apply(Loaded(batchSize, cmd, n), Add(cmd)) == Loaded(batchSize, cmd, n + 1)
  {
    assert seq(n, _ => cmd) + [cmd] == seq(n + 1, _ => cmd);
  }

  lemma {:induction false} AddMany(batchSize: nat, cmd: Command, n: nat)
    requires cmd.sequence > 0 && 1 <= batchSize < WORD && n <= WORD
    ensures var steps := seq(n, _ => Add(cmd));
            Run(batchSize, steps) == Loaded(batchSize, cmd, n) && Within(batchSize, steps, WORD)
  {
    if n > 0 {
      hide Within, Apply;
      AddMany(batchSize, cmd, n - 1);
      var before, steps := seq(n - 1, _ => Add(cmd)), seq(n, _ => Add(cmd));
      assert steps == before + [Add(cmd)];
      RunAppend(batchSize, before, Add(cmd));
      LoadedStep(batchSize, cmd, n - 1);
      WithinStep(batchSize, before, Add(cmd), WORD);
    }
  }

  lemma {:induction false} AllFresh(cmd: Command, n: nat)
    requires cmd.sequence > 0
    ensures |Fresh(map[], seq(n, _ => cmd))| == n
  {
    if n > 0 {
      AllFresh(cmd, n - 1);
      assert seq(n, _ => cmd)[..n - 1] == seq(n - 1, _ => cmd);
    }
  }

  /** A Get that takes the token while the length test fails wastes it. */
  lemma TokenWasted(s: System)
    requires s.waiting == s.checking == 0 && s.cache.ready && !HasFullBatch(s.cache)
    requires |Fresh(s.cache.seqNumbers, s.cache.cache)| >= s.cache.batchSize
    ensures var a := Apply(s, StartGet);
            var b := Apply(a, TakeToken);
            var c := Apply(b, RunCheck);
            a.cache.cache == b.cache.cache == c.cache.cache == s.cache.cache && !Awake(c)
  {
    hide Fresh, TryExtract, U32;
  }

  lemma LoadedWraps(batchSize: nat, cmd: Command)
    requires 1 <= batchSize < WORD && cmd.sequence > 0
    ensures var s := Loaded(batchSize, cmd, WORD);
            && s.waiting == s.checking == 0 && s.cache.ready && !HasFullBatch(s.cache) && |s.cache.cache| == WORD
            && |Fresh(s.cache.seqNumbers, s.cache.cache)| >= s.cache.batchSize
  {
    AllFresh(cmd, WORD);
  }

  /** A cache of 2^32 commands looks empty to the length test, and the wakeup is lost, whatever the batch size. */
  lemma WrapLosesWakeup(batchSize: nat)
    requires 1 <= batchSize < WORD
    ensures exists steps :: Within(batchSize, steps, WORD) && !Awake(Run(batchSize, steps))
  {
    hide Within, Apply, Awake, Loaded, Run, Fresh, HasFullBatch;
    var cmd := Command(1, 1, []);
    var adds := seq(WORD, _ => Add(cmd));
    AddMany(batchSize, cmd, WORD);
    LoadedWraps(batchSize, cmd);
    TokenWasted(Loaded(batchSize, cmd, WORD));
    var a := adds + [StartGet];
    var b := a + [TakeToken];
    var c := b + [RunCheck];
    RunAppend(batchSize, adds, StartGet);
    RunAppend(batchSize, a, TakeToken);
    RunAppend(batchSize, b, RunCheck);
    WithinStep(batchSize, adds, StartGet, WORD);
    WithinStep(batchSize, a, TakeToken, WORD);
    WithinStep(batchSize, b, RunCheck, WORD);
    assert Within(batchSize, c, WORD) && !Awake(Run(batchSize, c));
  }

  lemma WithinMore(batchSize: nat, steps: seq<Step>, limit: nat, more: nat)
    requires Within(batchSize, steps, limit) && limit <= more
    ensures Within(batchSize, steps, more)
  {}

  /** No wakeup is lost in any interleaving exactly when batches are not empty and the cache stays below 2^32. */
  lemma NoLostWakeup(batchSize: nat, limit: nat)
    requires batchSize < WORD
    ensures (forall steps :: Within(batchSize, steps, limit) ==> Awake(Run(batchSize, steps))) <==>
            batchSize >= 1 && limit < WORD
  {
    hide Awake, Run;
    if batchSize == 0 {
      NotAwakeAtStart();
    } else if limit < WORD {
      forall steps | Within(batchSize, steps, limit) ensures Awake(Run(batchSize, steps)) {
        WithinMore(batchSize, steps, limit, WORD - 1);
        AwakeRun(batchSize, steps);
      }
    } else {
      WrapLosesWakeup(batchSize);
      var steps :| Within(batchSize, steps, WORD) && !Awake(Run(batchSize, steps));
      WithinMore(batchSize, steps, WORD, limit);
    }
  }

  /** With empty batches nothing is ever signalled, though a batch is always full. */
  lemma NotAwakeAtStart()
    ensures !Awake(Run(0, [])) && forall limit :: Within(0, [], limit)
  {}

  lemma RunAppend(batchSize: nat, steps: seq<Step>, step: Step)
    ensures Run(batchSize, steps + [step]) == Apply(Run(batchSize, steps), step)
  {
    assert (steps + [step])[..|steps|] == steps;
  }

  // ---------- History ----------

  function AllExamined(es: seq<Extraction>): (r: seq<Command>) {
    if es == [] then [] else AllExamined(es[..|es| - 1]) + es[|es| - 1].examined
  }

  /**
   An extraction returns the fresh commands of what it examined, a full batch of
   them, and examines no more than it needs.
   */
  ghost predicate Extracted(batchSize: nat, e: Extraction) {
    && e.batch == Fresh(e.seqNumbers, e.examined)
    && |e.batch| == batchSize
    && (e.examined != [] ==> !Duplicate(e.seqNumbers, e.examined[|e.examined| - 1]))
  }

  /** Accepted commands are the examined ones followed by those that still wait. */
  ghost predicate History(s: System) {
    && s.accepted == AllExamined(s.extractions) + s.cache.cache
    && forall i :: 0 <= i < |s.extractions| ==> Extracted(s.cache.batchSize, s.extractions[i])
  }

  lemma CheckExtracts(s: State)
    requires Check(s).1.Some?
    ensures var rest := CheckedCache(s);
            var examined := s.cache[..|s.cache| - |rest|];
            s.cache == examined + rest && Extracted(s.batchSize, Extraction(s.seqNumbers, examined, Check(s).1.value))
    ensures Check(s).0.seqNumbers == s.seqNumbers && Check(s).0.batchSize == s.batchSize
  {
    hide ExaminedCount, U32;
    ExtractFails(s);
    var n := TryExtract(s).value.0;
    assert s.cache == s.cache[..n] + s.cache[n..];
    if n > 0 {
      assert s.cache[..n][..n - 1] == s.cache[..n - 1];
    }
  }

  lemma HistoryStep(s: System, step: Step)
    requires History(s)
    ensures History(Apply(s, step))
  {
    hide Extracted, Fresh, Check, AfterProposed;
    match step
    case Propose(batch) =>
      ProposedRecords(s.cache, batch);
    case RunCheck =>
      var r := Apply(s, step);
      if s.checking > 0 && Check(s.cache).1.Some? {
        CheckExtracts(s.cache);
        assert r.extractions[..|r.extractions| - 1] == s.extractions;
      } else {
        CheckExactly(s.cache);
      }
    case Add(cmd) =>
    case _ =>
  }

  /** A check extracts exactly when the length test passes and there is a full batch; otherwise it changes nothing. */
  lemma CheckExactly(s: State)
    ensures Check(s).1.Some? <==> |s.cache| % WORD >= s.batchSize && |Fresh(s.seqNumbers, s.cache)| >= s.batchSize
    ensures Check(s).1.None? ==> Check(s).0 == s
  {
    ExtractFails(s);
    if TryExtract(s).Some? {
      FreshGrows(s.seqNumbers, s.cache, TryExtract(s).value.0);
    }
  }

  lemma {:induction false} HistoryRun(batchSize: nat, steps: seq<Step>)
    ensures History(Run(batchSize, steps))
  {
    if steps != [] {
      HistoryRun(batchSize, steps[..|steps| - 1]);
      HistoryStep(Run(batchSize, steps[..|steps| - 1]), steps[|steps| - 1]);
    }
  }

  // ---------- Gets and tokens ----------

  /** How often something happens in a run: what is told of the system before a step and the step. */
  function Count(batchSize: nat, steps: seq<Step>, what: (System, Step) -> bool): (n: nat) {
    if steps == [] then 0
    else
      var init := steps[..|steps| - 1];
      Count(batchSize, init, what) + if what(Run(batchSize, init), steps[|steps| - 1]) then 1 else 0
  }

  predicate GivesUp(s: System, step: Step) {
    step.Cancel? && s.waiting > 0
  }

  predicate Takes(s: System, step: Step) {
    step.TakeToken? && s.waiting > 0 && s.cache.ready
  }

  predicate Looks(s: System, step: Step) {
    step.RunCheck? && s.checking > 0
  }

  predicate Signals(s: System, step: Step) {
    !s.cache.ready && Apply(s, step).cache.ready
  }

  /** Every Get that was started waits, is about to look, was given up or has returned a batch. */
  lemma {:induction false} GetsConserved(batchSize: nat, steps: seq<Step>)
    ensures var s := Run(batchSize, steps);
            Count(batchSize, steps, (s: System, step: Step) => step.StartGet?) ==
            s.waiting + s.checking + Count(batchSize, steps, GivesUp) + |s.extractions|
  {
    if steps != [] {
      hide Check, AfterAdd, AfterProposed;
      GetsConserved(batchSize, steps[..|steps| - 1]);
    }
  }

  /** Every signal is still there or was taken by one Get, and every Get that took one has looked or is about to. */
  lemma {:induction false} TokensConserved(batchSize: nat, steps: seq<Step>)
    ensures var s := Run(batchSize, steps);
            && Count(batchSize, steps, Signals) == Count(batchSize, steps, Takes) + (if s.cache.ready then 1 else 0)
            && Count(batchSize, steps, Takes) == Count(batchSize, steps, Looks) + s.checking
  {
    if steps != [] {
      TokensConserved(batchSize, steps[..|steps| - 1]);
      TokenStays(Run(batchSize, steps[..|steps| - 1]), steps[|steps| - 1]);
    }
  }

  /** Only a Get that takes the token removes it. */
  lemma TokenStays(s: System, step: Step)
    ensures s.cache.ready && !Apply(s, step).cache.ready ==> Takes(s, step)
    ensures Takes(s, step) ==> !Apply(s, step).cache.ready
  {
    hide TryExtract, U32;
    if step.Propose? {
      ProposedRecords(s.cache, step.batch);
    }
  }

  /** The signal is set by exactly those steps that leave a cache whose length passes the test. */
  lemma SignalExactly(s: System, step: Step)
    ensures var r := Apply(s, step);
            r.cache.ready <==>
            match step
            case Add(cmd) => s.cache.ready || (r.accepted != s.accepted && |r.cache.cache| % WORD >= s.cache.batchSize)
            case TakeToken => s.cache.ready && s.waiting == 0
            case RunCheck =>
              s.cache.ready ||
              (r.extractions != s.extractions && |r.cache.cache| % WORD >= s.cache.batchSize)
            case _ => s.cache.ready
  {
    hide TryExtract;
    if step.Propose? {
      ProposedRecords(s.cache, step.batch);
    }
  }

  // ---------- Freshness ----------

  /** The highest number of a client among some commands; 0 when there is none. */
  function Highest(cmds: seq<Command>, clientId: nat): (r: nat) {
    if cmds == [] then 0
    else
      var before, last := Highest(cmds[..|cmds| - 1], clientId), cmds[|cmds| - 1];
      if last.clientId == clientId && last.sequence > before then last.sequence else before
  }

  lemma {:induction false} HighestBounds(cmds: seq<Command>, cmd: Command)
    requires cmd in cmds
    ensures cmd.sequence <= Highest(cmds, cmd.clientId)
  {
    var last := cmds[|cmds| - 1];
    assert cmds == cmds[..|cmds| - 1] + [last];
    if cmd != last {
      HighestBounds(cmds[..|cmds| - 1], cmd);
    }
  }

  /** The record of each client is the running maximum of what was proposed. */
  ghost predicate Records(s: System) {
    forall c :: Recorded(s.cache.seqNumbers, c) == Highest(s.proposed, c)
  }

  lemma {:induction false} RecordsAfterProposed(s: State, proposed: seq<Command>, batch: Batch)
    requires forall c :: Recorded(s.seqNumbers, c) == Highest(proposed, c)
    ensures forall c :: Recorded(AfterProposed(s, batch).seqNumbers, c) == Highest(proposed + batch, c)
  {
    if batch == [] {
      assert proposed + batch == proposed;
    } else {
      var all := proposed + batch;
      RecordsAfterProposed(s, proposed, batch[..|batch| - 1]);
      assert all[..|all| - 1] == proposed + batch[..|batch| - 1];
    }
  }

  lemma RecordsStep(s: System, step: Step)
    requires Records(s)
    ensures Records(Apply(s, step))
  {
    hide Highest, Fresh, ExaminedCount;
    match step
    case Propose(batch) => RecordsAfterProposed(s.cache, s.proposed, batch);
    case _ =>
  }

  lemma {:induction false} RecordsRun(batchSize: nat, steps: seq<Step>)
    ensures Records(Run(batchSize, steps))
  {
    if steps != [] {
      RecordsRun(batchSize, steps[..|steps| - 1]);
      RecordsStep(Run(batchSize, steps[..|steps| - 1]), steps[|steps| - 1]);
    }
  }

  /** In every run a command is accepted exactly when its number is above all that were proposed of its client. */
  lemma AddExactly(batchSize: nat, steps: seq<Step>, cmd: Command)
    ensures var s := Run(batchSize, steps);
            var r := Apply(s, Add(cmd));
            if cmd.sequence > Highest(s.proposed, cmd.clientId)
            then r.cache.cache == s.cache.cache + [cmd] && r.accepted == s.accepted + [cmd]
            else r == s
  {
    RecordsRun(batchSize, steps);
  }

  /** Every batch returned so far has been proposed. */
  ghost predicate Settled(s: System) {
    forall i, cmd :: 0 <= i < |s.extractions| && cmd in s.extractions[i].batch ==> cmd in s.proposed
  }

  /** A Get runs its check only when the batches before it have been proposed. */
  ghost predicate Disciplined(batchSize: nat, steps: seq<Step>) {
    forall k :: 0 <= k < |steps| && steps[k].RunCheck? ==> Settled(Run(batchSize, steps[..k]))
  }

  /** For each client the numbers of a later batch are above those of an earlier one. */
  ghost predicate Rising(es: seq<Extraction>) {
    forall i, j, a, b ::
      0 <= i < j < |es| && a in es[i].batch && b in es[j].batch && a.clientId == b.clientId
      ==> a.sequence < b.sequence
  }

  lemma {:induction false} FreshMembers(seqNumbers: map<nat, nat>, cmds: seq<Command>, cmd: Command)
    requires cmd in Fresh(seqNumbers, cmds)
    ensures cmd in cmds && !Duplicate(seqNumbers, cmd)
  {
    var last := cmds[|cmds| - 1];
    if cmd in Fresh(seqNumbers, cmds[..|cmds| - 1]) {
      FreshMembers(seqNumbers, cmds[..|cmds| - 1], cmd);
    }
  }

  lemma RisingStep(s: System, step: Step)
    requires Rising(s.extractions) && Records(s)
    requires step.RunCheck? ==> Settled(s)
    ensures Rising(Apply(s, step).extractions)
  {
    hide Highest, Check, Fresh, Duplicate, AfterProposed, AfterAdd;
    var r := Apply(s, step);
    if step.RunCheck? && s.checking > 0 && Check(s.cache).1.Some? {
      CheckExtracts(s.cache);
      var last := r.extractions[|s.extractions|];
      forall i, a, b | 0 <= i < |s.extractions| && a in s.extractions[i].batch && b in last.batch
                       && a.clientId == b.clientId
        ensures a.sequence < b.sequence
      {
        StrictlyAbove(s, a, last, b);
      }
    }
  }

  lemma StrictlyAbove(s: System, a: Command, e: Extraction, b: Command)
    requires Records(s) && a in s.proposed && a.clientId == b.clientId
    requires e.seqNumbers == s.cache.seqNumbers && e.batch == Fresh(e.seqNumbers, e.examined) && b in e.batch
    ensures a.sequence < b.sequence
  {
    HighestBounds(s.proposed, a);
    FreshMembers(e.seqNumbers, e.examined, b);
    assert Recorded(s.cache.seqNumbers, a.clientId) == Highest(s.proposed, a.clientId);
  }

  lemma {:induction false} FreshnessRun(batchSize: nat, steps: seq<Step>)
    requires Disciplined(batchSize, steps)
    ensures Records(Run(batchSize, steps))
    ensures Rising(Run(batchSize, steps).extractions)
  {
    if steps != [] {
      var before, step := steps[..|steps| - 1], steps[|steps| - 1];
      forall k | 0 <= k < |before| && before[k].RunCheck? ensures Settled(Run(batchSize, before[..k])) {
        assert before[..k] == steps[..k] && steps[k].RunCheck?;
      }
      FreshnessRun(batchSize, before);
      assert steps[|before|] == step;
      RecordsStep(Run(batchSize, before), step);
      RisingStep(Run(batchSize, before), step);
    }
  }
}
