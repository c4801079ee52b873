/**
 The command cache of a HotStuff replica: commands wait in arrival order until
 a batch of fresh ones can be taken.  A lock guards the fields and a one-slot
 channel signals that a batch may be ready.

 The functions on `State` say what each critical section does to the fields;
 the class is the cache itself, and each of its methods is proved to do that.
 */
module CommandCache {
  import opened Basics

  datatype Command = Command(clientId: nat, sequence: nat, data: seq<nat>)

  type Batch = seq<Command>

  const WORD: nat := 0x1_0000_0000

  /** Conversion of a length to uint32. */
  function U32(n: nat): (r: nat) {
    n % WORD
  }

  datatype State = State(batchSize: nat, seqNumbers: map<nat, nat>, cache: seq<Command>, ready: bool)

  /** The highest proposed number of a client; 0 when there is none. */
  function Recorded(seqNumbers: map<nat, nat>, clientId: nat): (r: nat) {
    if clientId in seqNumbers then seqNumbers[clientId] else 0
  }

  predicate Duplicate(seqNumbers: map<nat, nat>, cmd: Command) {
    Recorded(seqNumbers, cmd.clientId) >= cmd.sequence
  }

  /** The commands that are not duplicates, in their order. */
  function Fresh(seqNumbers: map<nat, nat>, cmds: seq<Command>): (r: seq<Command>) {
    if cmds == [] then []
    else
      var last := cmds[|cmds| - 1];
      Fresh(seqNumbers, cmds[..|cmds| - 1]) + if Duplicate(seqNumbers, last) then [] else [last]
  }

  /** Fresh keeps exactly the commands above the record of their client, as often as they come. */
  lemma {:induction false} FreshCounts(seqNumbers: map<nat, nat>, cmds: seq<Command>, cmd: Command)
    ensures multiset(Fresh(seqNumbers, cmds))[cmd] ==
            if cmd.sequence > Recorded(seqNumbers, cmd.clientId) then multiset(cmds)[cmd] else 0
  {
    if cmds != [] {
      var init, last := cmds[..|cmds| - 1], cmds[|cmds| - 1];
      FreshCounts(seqNumbers, init, cmd);
      assert cmds == init + [last];
      assert multiset(cmds) == multiset(init) + multiset{last};
      var kept := if Duplicate(seqNumbers, last) then [] else [last];
      assert multiset(Fresh(seqNumbers, cmds)) == multiset(Fresh(seqNumbers, init)) + multiset(kept);
    }
  }

  predicate HasFullBatch(s: State) {
    U32(|s.cache|) >= s.batchSize
  }

  function SignalIfFull(s: State): (r: State) {
    if HasFullBatch(s) then s.(ready := true) else s
  }

  function AfterAdd(s: State, cmd: Command): (r: State) {
    if Duplicate(s.seqNumbers, cmd) then s
    else SignalIfFull(s.(cache := s.cache + [cmd]))
  }

  /** The shortest part of the cache that holds a full batch of fresh commands, or all of it. */
  ghost predicate Examined(s: State, n: nat) {
    && n <= |s.cache|
    && |Fresh(s.seqNumbers, s.cache[..n])| <= s.batchSize
    && (n < |s.cache| ==> |Fresh(s.seqNumbers, s.cache[..n])| == s.batchSize)
    && (n > 0 ==> |Fresh(s.seqNumbers, s.cache[..n - 1])| < s.batchSize)
  }

  lemma {:induction false} FreshGrows(seqNumbers: map<nat, nat>, cmds: seq<Command>, n: nat)
    requires n <= |cmds|
    ensures |Fresh(seqNumbers, cmds[..n])| <= |Fresh(seqNumbers, cmds)|
    decreases |cmds|
  {
    if n < |cmds| {
      FreshGrows(seqNumbers, cmds[..|cmds| - 1], n);
      assert cmds[..|cmds| - 1][..n] == cmds[..n];
    } else {
      assert cmds[..n] == cmds;
    }
  }

  lemma ExaminedIsShortest(s: State, n: nat, m: nat)
    requires Examined(s, m) && n < m
    ensures !Examined(s, n)
  {
    FreshGrows(s.seqNumbers, s.cache[..m - 1], n);
    assert s.cache[..m - 1][..n] == s.cache[..n];
  }

  /** At most one prefix is the examined one. */
  lemma ExaminedUnique(s: State, n: nat, m: nat)
    requires Examined(s, n) && Examined(s, m)
    ensures n == m
  {
    if n < m {
      ExaminedIsShortest(s, n, m);
    } else if m < n {
      ExaminedIsShortest(s, m, n);
    }
  }

  /** How many commands an extraction looks at. */
  function ExaminedCount(s: State, n: nat): (r: nat)
    requires n <= |s.cache|
    decreases |s.cache| - n
  {
    if |Fresh(s.seqNumbers, s.cache[..n])| == s.batchSize || n == |s.cache| then n
    else ExaminedCount(s, n + 1)
  }

  lemma {:induction false} ExaminedCountExamines(s: State, n: nat)
    requires n <= |s.cache| && |Fresh(s.seqNumbers, s.cache[..n])| <= s.batchSize
    requires n > 0 ==> |Fresh(s.seqNumbers, s.cache[..n - 1])| < s.batchSize
    ensures Examined(s, ExaminedCount(s, n))
    decreases |s.cache| - n
  {
    if |Fresh(s.seqNumbers, s.cache[..n])| != s.batchSize && n != |s.cache| {
      assert s.cache[..n + 1][..n] == s.cache[..n];
      ExaminedCountExamines(s, n + 1);
    }
  }

  /** What tryExtractBatch returns: the part it examined and the batch in it. */
  function TryExtract(s: State): (r: Option<(nat, Batch)>)
    ensures r.Some? ==> r.value.0 <= |s.cache|
  {
    var n := ExaminedCount(s, 0);
    ExaminedCountExamines(s, 0);
    var batch := Fresh(s.seqNumbers, s.cache[..n]);
    if |batch| == s.batchSize then Some((n, batch)) else None
  }

  /** The critical section of Get: the new state and the batch, if there is one. */
  function Check(s: State): (r: (State, Option<Batch>)) {
    if !HasFullBatch(s) then (s, None)
    else
      match TryExtract(s)
      case None => (s, None)
      case Some((n, batch)) => (SignalIfFull(s.(cache := s.cache[n..])), Some(batch))
  }

  function AfterProposed(s: State, batch: Batch): (r: State) {
    if batch == [] then s
    else
      var before := AfterProposed(s, batch[..|batch| - 1]);
      var cmd := batch[|batch| - 1];
      if Duplicate(before.seqNumbers, cmd) then before
      else before.(seqNumbers := before.seqNumbers[cmd.clientId := cmd.sequence])
  }

  class Cache {
    const batchSize: nat
    var seqNumbers: map<nat, nat>
    var cache: seq<Command>
    var ready: bool

    function View(): (s: State)
      reads this
    {
      State(batchSize, seqNumbers, cache, ready)
    }

    constructor (size: nat)
      requires size < WORD
      ensures View() == State(size, map[], [], false)
    {
      batchSize, seqNumbers, cache, ready := size, map[], [], false;
    }

    method SignalReady()
      modifies `ready
      ensures ready
    {
      ready := true;
    }

    method Add(cmd: Command)
      modifies this
      ensures View() == AfterAdd(old(View()), cmd)
    {
      if Duplicate(seqNumbers, cmd) {
        return;
      }
      cache := cache + [cmd];
      if HasFullBatch(View()) {
        SignalReady();
      }
    }

    method TryExtractBatch() returns (batch: Option<Batch>)
      modifies `cache
      ensures batch.None? <==> TryExtract(old(View())).None?
      ensures batch.None? ==> cache == old(cache)
      ensures batch.Some? ==>
                var (n, taken) := TryExtract(old(View())).value;
                batch.value == taken && cache == old(cache)[n..]
    {
      var commands: Batch := [];
      var extracted := 0;
      assert cache[..0] == [];
      while |commands| != batchSize && extracted < |cache|
        invariant 0 <= extracted <= |cache|
        invariant commands == Fresh(seqNumbers, cache[..extracted]) && |commands| <= batchSize
        invariant extracted > 0 ==> |Fresh(seqNumbers, cache[..extracted - 1])| < batchSize
        invariant cache == old(cache)
      {
        var cmd := cache[extracted];
        assert cache[..extracted + 1][..extracted] == cache[..extracted];
        extracted := extracted + 1;
        if Duplicate(seqNumbers, cmd) {
          continue;
        }
        commands := commands + [cmd];
      }
      ExaminedCountExamines(View(), 0);
      ExaminedUnique(View(), extracted, ExaminedCount(View(), 0));
      if |commands| == batchSize {
        cache := cache[extracted..];
        return Some(commands);
      }
      return None;
    }

    /** The part of Get that holds the lock. */
    method GetCheck() returns (batch: Option<Batch>)
      modifies this
      ensures (View(), batch) == Check(old(View()))
    {
      if !HasFullBatch(View()) {
        return None;
      }
      batch := TryExtractBatch();
      if batch.Some? {
        if HasFullBatch(View()) {
          SignalReady();
        }
      }
    }

    method Proposed(batch: Batch)
      modifies this
      ensures View() == AfterProposed(old(View()), batch)
    {
      assert batch[..0] == [];
      for i := 0 to |batch|
        invariant View() == AfterProposed(old(View()), batch[..i])
      {
        assert batch[..i + 1][..i] == batch[..i];
        if !Duplicate(seqNumbers, batch[i]) {
          seqNumbers := seqNumbers[batch[i].clientId := batch[i].sequence];
        }
      }
      assert batch[..|batch|] == batch;
    }
  }
}
