/**
 The transactions of a Diem benchmark: numbered by the controller, carried as 14
 bytes each, and queued per account by the worker of each thread.
 */
module DiemWorkload {
  import opened Basics
  import opened Wire
  import opened Workload
  import DiemSlots

  datatype Transaction = Transaction(from: nat, to: nat, amount: nat, sequence: nat, endpoint: nat)

  // ---------- The encoding ----------

  function EncodeTx(tx: Transaction): (b: Bytes)
    ensures |b| == 14
  {
    PutHalf(tx.from) + PutHalf(tx.to) + PutWord(tx.amount) + PutWord(tx.sequence) + PutHalf(tx.endpoint)
  }

  function DecodeTx(b: Bytes): (r: Option<Transaction>) {
    if |b| < 14 then None
    else Some(Transaction(GetHalf(b[0..2]), GetHalf(b[2..4]), GetWord(b[4..8]), GetWord(b[8..12]), GetHalf(b[12..14])))
  }

  predicate FitsWire(tx: Transaction) {
    tx.from < HALF && tx.to < HALF && tx.amount < WORD && tx.sequence < WORD && tx.endpoint < HALF
  }

  /** A transaction is decoded modulo the widths of its fields: as it was exactly when they fit. */
  lemma TxRoundTrip(tx: Transaction)
    ensures DecodeTx(EncodeTx(tx)) == Some(Transaction(
              tx.from % HALF, tx.to % HALF, tx.amount % WORD, tx.sequence % WORD, tx.endpoint % HALF))
    ensures DecodeTx(EncodeTx(tx)) == Some(tx) <==> FitsWire(tx)
  {
    hide PutHalf, PutWord, GetHalf, GetWord;
    var b := EncodeTx(tx);
    assert b[0..2] == PutHalf(tx.from);
    assert b[2..4] == PutHalf(tx.to);
    assert b[4..8] == PutWord(tx.amount);
    assert b[8..12] == PutWord(tx.sequence);
    assert b[12..14] == PutHalf(tx.endpoint);
    NumbersRoundTrip(tx.from);
    NumbersRoundTrip(tx.to);
    NumbersRoundTrip(tx.amount);
    NumbersRoundTrip(tx.sequence);
    NumbersRoundTrip(tx.endpoint);
  }

  /** Where the fields of a transaction are. */
  lemma TxLayout(tx: Transaction)
    ensures var b := EncodeTx(tx);
            && Value(b[0..2]) == tx.from % HALF && Value(b[2..4]) == tx.to % HALF
            && Value(b[4..8]) == tx.amount % WORD && Value(b[8..12]) == tx.sequence % WORD
            && Value(b[12..14]) == tx.endpoint % HALF
  {
    hide PutHalf, PutWord, Value;
    var b := EncodeTx(tx);
    assert b[0..2] == PutHalf(tx.from) && b[2..4] == PutHalf(tx.to);
    assert b[4..8] == PutWord(tx.amount) && b[8..12] == PutWord(tx.sequence);
    assert b[12..14] == PutHalf(tx.endpoint);
    LittleEndian(tx.from);
    LittleEndian(tx.to);
    LittleEndian(tx.amount);
    LittleEndian(tx.sequence);
    LittleEndian(tx.endpoint);
  }

  function EncodeAll(txs: seq<Transaction>): (r: seq<Bytes>)
    ensures |r| == |txs| && forall i :: 0 <= i < |r| ==> r[i] == EncodeTx(txs[i])
  {
    seq(|txs|, i requires 0 <= i < |txs| => EncodeTx(txs[i]))
  }

  // ---------- Sequence numbers ----------

  function CountFrom(txs: seq<Transaction>, a: nat): (n: nat) {
    if txs == [] then 0
    else CountFrom(txs[..|txs| - 1], a) + if txs[|txs| - 1].from == a then 1 else 0
  }

  /** Every transaction carries the number of earlier transactions of its account. */
  ghost predicate Aligned(txs: seq<Transaction>) {
    forall k :: 0 <= k < |txs| ==> txs[k].sequence == CountFrom(txs[..k], txs[k].from)
  }

  /** The transactions of one account, in their order. */
  function QueueOf(txs: seq<Transaction>, a: nat): (r: seq<Transaction>) {
    if txs == [] then []
    else QueueOf(txs[..|txs| - 1], a) + if txs[|txs| - 1].from == a then [txs[|txs| - 1]] else []
  }

  lemma AlignedAppend(txs: seq<Transaction>, tx: Transaction)
    ensures Aligned(txs + [tx]) <==> Aligned(txs) && tx.sequence == CountFrom(txs, tx.from)
    ensures forall a :: CountFrom(txs + [tx], a) == CountFrom(txs, a) + if tx.from == a then 1 else 0
  {
    var all := txs + [tx];
    assert all[..|txs|] == txs;
    assert forall k :: 0 <= k < |txs| ==> all[..k] == txs[..k];
    assert all[|txs|] == tx;
    if Aligned(all) {
      forall k | 0 <= k < |txs| ensures txs[k].sequence == CountFrom(txs[..k], txs[k].from) {
        assert all[k] == txs[k];
      }
    }
  }

  lemma QueueAppend(txs: seq<Transaction>, tx: Transaction, a: nat)
    ensures QueueOf(txs + [tx], a) == QueueOf(txs, a) + if tx.from == a then [tx] else []
  {
    assert (txs + [tx])[..|txs|] == txs;
  }

  /** Slot k of an account's queue holds the transaction with sequence number k. */
  lemma {:induction false} SlotsAligned(txs: seq<Transaction>, a: nat)
    requires Aligned(txs)
    ensures |QueueOf(txs, a)| == CountFrom(txs, a)
    ensures forall k :: 0 <= k < |QueueOf(txs, a)| ==>
              QueueOf(txs, a)[k].sequence == k && QueueOf(txs, a)[k].from == a
  {
    if txs != [] {
      hide Aligned, QueueOf, CountFrom;
      var init, tx := txs[..|txs| - 1], txs[|txs| - 1];
      assert txs == init + [tx];
      AlignedAppend(init, tx);
      QueueAppend(init, tx, a);
      SlotsAligned(init, a);
    }
  }

  // ---------- The controller ----------

  /** The random numbers of a run, in the order in which they are drawn. */
  type Random = nat -> nat

  method GenerateSimpleTransaction(dest: Builder, random: Random, drawn: nat, size: nat,
                                   s: nat, t: nat, interval: nat, froms: seq<nat>, sequences: array<nat>)
    returns (drawn': nat, ghost tx: Transaction)
    requires size > 0 && froms != [] && forall i :: 0 <= i < |froms| ==> froms[i] < sequences.Length
    modifies dest, sequences
    ensures tx.from in froms && tx.from < sequences.Length && tx.to < sequences.Length
    ensures tx.amount == 100 && tx.endpoint < size && tx.sequence == old(sequences[tx.from])
    ensures drawn' == drawn + 3 && tx.endpoint == random(drawn) % size
    ensures tx.from == froms[random(drawn + 1) % |froms|] && tx.to == random(drawn + 2) % sequences.Length
    ensures sequences[tx.from] == old(sequences[tx.from]) + 1
    ensures forall a :: 0 <= a < sequences.Length && a != tx.from ==> sequences[a] == old(sequences[a])
    ensures Cell(dest.cells, s, t, interval) == old(Cell(dest.cells, s, t, interval)) + [EncodeTx(tx)]
    ensures OnlyCell(old(dest.cells), dest.cells, s, t, interval)
  {
    hide EncodeTx, Cell;
    var population := sequences.Length;
    assert froms[0] < population;
    var endpoint := random(drawn) % size;
    var from := froms[random(drawn + 1) % |froms|];
    var to := random(drawn + 2) % population;
    drawn' := drawn + 3;
    var next := Transaction(from, to, 100, sequences[from], endpoint);
    tx := next;
    sequences[from] := sequences[from] + 1;
    dest.Add(s, t, interval, EncodeTx(next));
  }

  /** How many transactions an interval asks for. */
  function Requested(n: int): (r: nat) {
    if n < 0 then 0 else n
  }

  /** What the controller plans for one thread, interval by interval. */
  ghost predicate ThreadPlan(plan: seq<seq<Transaction>>, intervals: seq<int>, froms: seq<nat>, population: nat, size: nat) {
    && |plan| == |intervals|
    && (forall i :: 0 <= i < |plan| ==> |plan[i]| == Requested(intervals[i]))
    && Aligned(Concat(plan))
    && PlanInRange(Concat(plan), froms, population, size)
  }

  ghost predicate PlanInRange(txs: seq<Transaction>, froms: seq<nat>, population: nat, size: nat) {
    forall k :: 0 <= k < |txs| ==>
      txs[k].from in froms && txs[k].to < population && txs[k].endpoint < size && txs[k].amount == 100
  }

  /** The cells of a thread hold the encoded plan and nothing else. */
  ghost predicate Holds(w: seq<Secondary>, s: nat, t: nat, plan: seq<seq<Transaction>>) {
    forall i: nat :: Cell(w, s, t, i) == if i < |plan| then EncodeAll(plan[i]) else []
  }

  ghost predicate SameElsewhere(w: seq<Secondary>, w': seq<Secondary>, s: nat, t: nat) {
    forall s': nat, t': nat, i': nat :: (s', t') != (s, t) ==> Cell(w, s', t', i') == Cell(w', s', t', i')
  }

  /** The counters of the accounts of a thread count its plan; the others are as before. */
  ghost predicate Counted(sequences: array<nat>, before: seq<nat>, froms: seq<nat>, txs: seq<Transaction>)
    reads sequences
  {
    && |before| == sequences.Length
    && forall a :: 0 <= a < sequences.Length ==>
         sequences[a] == if a in froms then CountFrom(txs, a) else before[a]
  }

  lemma ConcatSnoc(plan: seq<seq<Transaction>>, txs: seq<Transaction>)
    ensures Concat(plan + [txs]) == Concat(plan) + txs
  {
    ConcatAppend(plan, [txs]);
    assert Concat([txs]) == txs + Concat([txs][1..]);
  }

  /** The transactions of one thread in one interval; an error for the first of an unknown type. */
  method GenerateInterval(simple: bool, dest: Builder, random: Random, drawn0: nat, size: nat,
                          s: nat, t: nat, interval: nat, txnum: int,
                          froms: seq<nat>, sequences: array<nat>, ghost before: seq<nat>, ghost done: seq<Transaction>)
    returns (ok: bool, drawn: nat, ghost txs: seq<Transaction>)
    requires size > 0 && froms != [] && forall i :: 0 <= i < |froms| ==> froms[i] < sequences.Length
    requires Counted(sequences, before, froms, done) && Aligned(done)
    requires Cell(dest.cells, s, t, interval) == []
    requires PlanInRange(done, froms, sequences.Length, size)
    modifies dest, sequences
    ensures ok <==> simple || txnum <= 0
    ensures ok ==> Counted(sequences, before, froms, done + txs) && Aligned(done + txs) && |txs| == Requested(txnum)
    ensures ok ==> PlanInRange(done + txs, froms, sequences.Length, size)
    ensures ok ==> Cell(dest.cells, s, t, interval) == EncodeAll(txs)
    ensures OnlyCell(old(dest.cells), dest.cells, s, t, interval)
  {
    hide EncodeTx, Cell, CountFrom, Aligned;
    ok, drawn, txs := true, drawn0, [];
    assert done + txs == done;
    var i := 0;
    while i < txnum
      invariant 0 <= i <= Requested(txnum) && |txs| == i && (i > 0 ==> simple)
      invariant Counted(sequences, before, froms, done + txs) && Aligned(done + txs)
      invariant PlanInRange(done + txs, froms, sequences.Length, size)
      invariant Cell(dest.cells, s, t, interval) == EncodeAll(txs)
      invariant OnlyCell(old(dest.cells), dest.cells, s, t, interval)
    {
      if !simple {
        return false, drawn, txs;
      }
      ghost var tx;
      drawn, tx := GenerateSimpleTransaction(dest, random, drawn, size, s, t, interval, froms, sequences);
      AlignedAppend(done + txs, tx);
      assert done + txs + [tx] == done + (txs + [tx]);
      assert EncodeAll(txs) + [EncodeTx(tx)] == EncodeAll(txs + [tx]);
      txs := txs + [tx];
      i := i + 1;
    }
  }

  /** Some interval asks for transactions. */
  ghost predicate Asks(intervals: seq<int>) {
    exists i :: 0 <= i < |intervals| && intervals[i] > 0
  }

  /** The transactions of one thread, interval by interval. */
  method GenerateThread(simple: bool, dest: Builder, random: Random, drawn0: nat, size: nat, s: nat, t: nat,
                        intervals: seq<int>, froms: seq<nat>, sequences: array<nat>)
    returns (ok: bool, drawn: nat, ghost plan: seq<seq<Transaction>>)
    requires size > 0 && froms != [] && forall i :: 0 <= i < |froms| ==> froms[i] < sequences.Length
    requires forall a :: 0 <= a < sequences.Length && a in froms ==> sequences[a] == 0
    requires forall i: nat :: Cell(dest.cells, s, t, i) == []
    modifies dest, sequences
    ensures ok <==> simple || !Asks(intervals)
    ensures ok ==> ThreadPlan(plan, intervals, froms, sequences.Length, size)
    ensures ok ==> Holds(dest.cells, s, t, plan) && SameElsewhere(old(dest.cells), dest.cells, s, t)
    ensures ok ==> forall a :: 0 <= a < sequences.Length && a !in froms ==> sequences[a] == old(sequences[a])
  {
    hide EncodeTx, Cell, CountFrom, Aligned, EncodeAll, OnlyCell, SameElsewhere, PlanInRange, Holds, Counted, Concat;
    ok, drawn, plan := true, drawn0, [];
    ghost var before := sequences[..];
    NothingPlanned();
    NothingHeld(dest.cells, s, t, froms, sequences.Length, size);
    NothingCounted(sequences, froms);
    for interval := 0 to |intervals|
      invariant |plan| == interval && ok
      invariant simple || forall i :: 0 <= i < interval ==> intervals[i] <= 0
      invariant forall i :: 0 <= i < |plan| ==> |plan[i]| == Requested(intervals[i])
      invariant Counted(sequences, before, froms, Concat(plan)) && Aligned(Concat(plan))
      invariant PlanInRange(Concat(plan), froms, sequences.Length, size)
      invariant Holds(dest.cells, s, t, plan) && SameElsewhere(old(dest.cells), dest.cells, s, t)
      invariant Cell(dest.cells, s, t, interval) == []
    {
      ghost var txs, cells := [], dest.cells;
      ok, drawn, txs := GenerateInterval(simple, dest, random, drawn, size, s, t, interval, intervals[interval],
                                         froms, sequences, before, Concat(plan));
      if !ok {
        return false, drawn, plan;
      }
      ConcatSnoc(plan, txs);
      HoldsMore(old(dest.cells), cells, dest.cells, s, t, plan, txs);
      EmptyAhead(dest.cells, s, t, plan + [txs]);
      plan := plan + [txs];
    }
    OthersKept(sequences, before, froms, Concat(plan));
  }

  lemma NothingCounted(sequences: array<nat>, froms: seq<nat>)
    requires forall a :: 0 <= a < sequences.Length && a in froms ==> sequences[a] == 0
    ensures Counted(sequences, sequences[..], froms, [])
  {}

  lemma OthersKept(sequences: array<nat>, before: seq<nat>, froms: seq<nat>, txs: seq<Transaction>)
    requires Counted(sequences, before, froms, txs)
    ensures |before| == sequences.Length
    ensures forall a :: 0 <= a < sequences.Length && a !in froms ==> sequences[a] == before[a]
  {}

  lemma EmptyAhead(w: seq<Secondary>, s: nat, t: nat, plan: seq<seq<Transaction>>)
    requires Holds(w, s, t, plan)
    ensures Cell(w, s, t, |plan|) == []
  {}

  lemma NothingHeld(w: seq<Secondary>, s: nat, t: nat, froms: seq<nat>, population: nat, size: nat)
    ensures SameElsewhere(w, w, s, t) && PlanInRange([], froms, population, size)
    ensures (forall i: nat :: Cell(w, s, t, i) == []) ==> Holds(w, s, t, [])
  {
    hide Cell;
  }

  lemma HoldsMore(w0: seq<Secondary>, w: seq<Secondary>, w': seq<Secondary>, s: nat, t: nat,
                  plan: seq<seq<Transaction>>, txs: seq<Transaction>)
    requires Holds(w, s, t, plan) && SameElsewhere(w0, w, s, t)
    requires OnlyCell(w, w', s, t, |plan|) && Cell(w', s, t, |plan|) == EncodeAll(txs)
    ensures Holds(w', s, t, plan + [txs]) && SameElsewhere(w0, w', s, t)
  {
    hide Cell, EncodeAll;
    forall i: nat ensures Cell(w', s, t, i) == if i < |plan| + 1 then EncodeAll((plan + [txs])[i]) else [] {
      if i != |plan| {
        assert Cell(w', s, t, i) == Cell(w, s, t, i);
      }
    }
  }

  lemma NothingPlanned()
    ensures Concat<Transaction>([]) == [] && Aligned([]) && forall a :: CountFrom([], a) == 0
  {}

  // ---------- All the threads ----------

  /** The home of a thread. */
  function Home(s: nat, t: nat, threads: nat): (h: nat) {
    s * threads + t
  }

  lemma HomeInRange(s: nat, t: nat, secondaries: nat, threads: nat)
    requires s < secondaries && t < threads
    ensures Home(s, t, threads) < secondaries * threads
  {
    assert (s + 1) * threads <= secondaries * threads;
  }

  /** No two threads share a home. */
  lemma HomeUnique(s: nat, t: nat, s': nat, t': nat, threads: nat)
    requires t < threads && t' < threads
    ensures Home(s, t, threads) == Home(s', t', threads) ==> s == s' && t == t'
  {
    if s < s' {
      assert (s + 1) * threads <= s' * threads;
    } else if s' < s {
      assert (s' + 1) * threads <= s * threads;
    }
  }

  /** The accounts are dealt out to the homes in turn. */
  ghost predicate Dealt(homes: seq<seq<nat>>, population: nat) {
    && homes != []
    && forall h, a: nat :: 0 <= h < |homes| ==> (a in homes[h] <==> a < population && a % |homes| == h)
  }

  method AssignHomes(population: nat, count: nat) returns (homes: seq<seq<nat>>)
    requires count > 0
    ensures |homes| == count && Dealt(homes, population)
  {
    homes := seq(count, _ => []);
    for i := 0 to population
      invariant |homes| == count && Dealt(homes, i)
    {
      var home := i % count;
      ghost var before := homes;
      homes := homes[home := homes[home] + [i]];
      forall h, a: nat | 0 <= h < count ensures a in homes[h] <==> a < i + 1 && a % count == h {
        assert a in homes[h] <==> a in before[h] || (h == home && a == i);
      }
    }
  }

  /** The homes partition the accounts, and none is empty when there are enough accounts. */
  lemma HomesPartition(homes: seq<seq<nat>>, population: nat, a: nat)
    requires Dealt(homes, population)
    ensures a < population ==> a in homes[a % |homes|]
    ensures forall h, h' :: 0 <= h < |homes| && 0 <= h' < |homes| && a in homes[h] && a in homes[h'] ==> h == h'
    ensures population >= |homes| ==> forall h: nat :: h < |homes| ==> homes[h] != []
  {
    forall h: nat | h < |homes| && population >= |homes| ensures homes[h] != [] {
      assert h % |homes| == h;
      assert h in homes[h];
    }
  }

  /** Thread (s', t') comes before thread (s, t). */
  predicate Before(s': nat, t': nat, s: nat, t: nat) {
    s' < s || (s' == s && t' < t)
  }

  type Plans = map<(nat, nat), seq<seq<Transaction>>>

  /** The threads before (s, t) are planned; the others have nothing and their accounts are at 0. */
  ghost predicate Progress(w: seq<Secondary>, sequences: seq<nat>, plans: Plans, homes: seq<seq<nat>>,
                           intervals: seq<int>, threads: nat, size: nat, s: nat, t: nat) {
    && (forall s': nat, t': nat :: t' < threads && Before(s', t', s, t) ==>
          && (s', t') in plans && Home(s', t', threads) < |homes|
          && ThreadPlan(plans[(s', t')], intervals, homes[Home(s', t', threads)], |sequences|, size)
          && Holds(w, s', t', plans[(s', t')]))
    && (forall s': nat, t': nat, i: nat :: t' < threads && !Before(s', t', s, t) ==> Cell(w, s', t', i) == [])
    && (forall s': nat, t': nat, a: nat | t' < threads && !Before(s', t', s, t) && Home(s', t', threads) < |homes| ::
          a in homes[Home(s', t', threads)] && a < |sequences| ==> sequences[a] == 0)
  }

  lemma ProgressStep(w: seq<Secondary>, w': seq<Secondary>, sequences: seq<nat>, sequences': seq<nat>, plans: Plans,
                     plan: seq<seq<Transaction>>, homes: seq<seq<nat>>, intervals: seq<int>, population: nat,
                     threads: nat, size: nat, s: nat, t: nat)
    requires Progress(w, sequences, plans, homes, intervals, threads, size, s, t)
    requires Dealt(homes, population) && |sequences| == |sequences'| == population
    requires t < threads && Home(s, t, threads) < |homes|
    requires ThreadPlan(plan, intervals, homes[Home(s, t, threads)], population, size)
    requires Holds(w', s, t, plan) && SameElsewhere(w, w', s, t)
    requires forall a :: 0 <= a < population && a !in homes[Home(s, t, threads)] ==> sequences'[a] == sequences[a]
    ensures Progress(w', sequences', plans[(s, t) := plan], homes, intervals, threads, size, s, t + 1)
  {
    hide Cell, ThreadPlan, Home, Dealt;
    forall s': nat, t': nat | t' < threads && Before(s', t', s, t + 1)
      ensures (s', t') in plans[(s, t) := plan] && Home(s', t', threads) < |homes|
      ensures ThreadPlan(plans[(s, t) := plan][(s', t')], intervals, homes[Home(s', t', threads)], population, size)
      ensures Holds(w', s', t', plans[(s, t) := plan][(s', t')])
    {
      if (s', t') != (s, t) {
        assert Before(s', t', s, t);
      }
    }
    forall s': nat, t': nat, a: nat
      | t' < threads && !Before(s', t', s, t + 1) && Home(s', t', threads) < |homes|
        && a in homes[Home(s', t', threads)] && a < population
      ensures sequences'[a] == 0
    {
      HomeUnique(s, t, s', t', threads);
      HomesPartition(homes, population, a);
      assert a !in homes[Home(s, t, threads)];
      assert !Before(s', t', s, t);
    }
  }

  lemma NextSecondary(w: seq<Secondary>, sequences: seq<nat>, plans: Plans, homes: seq<seq<nat>>,
                      intervals: seq<int>, threads: nat, size: nat, s: nat)
    requires Progress(w, sequences, plans, homes, intervals, threads, size, s, threads)
    ensures Progress(w, sequences, plans, homes, intervals, threads, size, s + 1, 0)
  {
    hide Cell, ThreadPlan, Home, Holds;
    forall s': nat, t': nat | t' < threads ensures Before(s', t', s, threads) == Before(s', t', s + 1, 0) {
    }
  }

  /**
   The plan of the whole benchmark: an error when there are fewer accounts than threads or
   when transactions of an unknown type are asked for, and otherwise a plan for every thread
   over the accounts of its own home.
   */
  method Generate(simple: bool, secondaries: nat, threads: nat, intervals: seq<int>, population: nat, size: nat, random: Random)
    returns (dest: Builder, ok: bool, ghost homes: seq<seq<nat>>, ghost plans: Plans)
    requires secondaries > 0 && threads > 0 && size > 0
    ensures fresh(dest)
    ensures ok <==> population >= secondaries * threads && (simple || !Asks(intervals))
    ensures ok ==> |homes| == secondaries * threads && Dealt(homes, population)
    ensures ok ==> forall s: nat, t: nat :: s < secondaries && t < threads ==>
              && (s, t) in plans && Home(s, t, threads) < |homes|
              && ThreadPlan(plans[(s, t)], intervals, homes[Home(s, t, threads)], population, size)
              && Holds(dest.cells, s, t, plans[(s, t)])
  {
    hide Cell, ThreadPlan, Home, Holds, Dealt, Asks;
    dest := new Builder();
    homes, plans := [], map[];
    assert secondaries * threads > 0 by { HomeInRange(0, 0, secondaries, threads); }
    if population < secondaries * threads {
      return dest, false, homes, plans;
    }
    var sequences := new nat[population](_ => 0);
    var dealt := AssignHomes(population, secondaries * threads);
    homes := dealt;
    var drawn := 0;
    ProgressStart(dest.cells, sequences[..], homes, intervals, threads, size);
    for s := 0 to secondaries
      invariant fresh(dest) && fresh(sequences) && (s > 0 ==> simple || !Asks(intervals))
      invariant Progress(dest.cells, sequences[..], plans, homes, intervals, threads, size, s, 0)
    {
      for t := 0 to threads
        invariant fresh(dest) && fresh(sequences) && (t > 0 ==> simple || !Asks(intervals))
        invariant Progress(dest.cells, sequences[..], plans, homes, intervals, threads, size, s, t)
      {
        HomeInRange(s, t, secondaries, threads);
        var froms := dealt[Home(s, t, threads)];
        HomeAccounts(homes, population, Home(s, t, threads));
        ghost var cells, numbers, plan := dest.cells, sequences[..], [];
        ok, drawn, plan := GenerateThread(simple, dest, random, drawn, size, s, t, intervals, froms, sequences);
        if !ok {
          return dest, false, homes, plans;
        }
        ProgressStep(cells, dest.cells, numbers, sequences[..], plans, plan, homes, intervals, population,
                     threads, size, s, t);
        plans := plans[(s, t) := plan];
      }
      NextSecondary(dest.cells, sequences[..], plans, homes, intervals, threads, size, s);
    }
    return dest, true, homes, plans;
  }

  lemma HomeAccounts(homes: seq<seq<nat>>, population: nat, h: nat)
    requires Dealt(homes, population) && h < |homes| <= population
    ensures homes[h] != [] && forall i :: 0 <= i < |homes[h]| ==> homes[h][i] < population
  {
    HomesPartition(homes, population, h);
    forall i | 0 <= i < |homes[h]| ensures homes[h][i] < population {
      assert homes[h][i] in homes[h];
    }
  }

  lemma ProgressStart(w: seq<Secondary>, sequences: seq<nat>, homes: seq<seq<nat>>,
                      intervals: seq<int>, threads: nat, size: nat)
    requires w == [] && forall a :: 0 <= a < |sequences| ==> sequences[a] == 0
    ensures Progress(w, sequences, map[], homes, intervals, threads, size, 0, 0)
  {}

  // ---------- The worker ----------

  function DecodeAll(workload: seq<Bytes>): (r: seq<Transaction>)
    requires forall i :: 0 <= i < |workload| ==> |workload[i]| >= 14
    ensures |r| == |workload| && forall i :: 0 <= i < |r| ==> Some(r[i]) == DecodeTx(workload[i])
  {
    seq(|workload|, i requires 0 <= i < |workload| => DecodeTx(workload[i]).value)
  }

  /** Decodes the transactions of a thread and queues them by account; the blockchain may refuse to prepare one. */
  method ParseWorkload(population: nat, workload: seq<Bytes>, prepares: nat -> bool)
    returns (ok: bool, origins: seq<nat>, queues: seq<seq<Transaction>>)
    requires forall i :: 0 <= i < |workload| && |workload[i]| >= 14 ==> DecodeTx(workload[i]).value.from < population
    ensures ok <==> forall i :: 0 <= i < |workload| ==> |workload[i]| >= 14 && prepares(i)
    ensures ok ==> |origins| == |workload| && |queues| == population
    ensures ok ==> forall i :: 0 <= i < |workload| ==> origins[i] == DecodeAll(workload)[i].from
    ensures ok ==> forall a :: 0 <= a < population ==> queues[a] == QueueOf(DecodeAll(workload), a)
  {
    hide DecodeTx, QueueOf;
    origins, queues := [], seq(population, _ => []);
    NothingQueued();
    for i := 0 to |workload|
      invariant forall k :: 0 <= k < i ==> |workload[k]| >= 14 && prepares(k)
      invariant |origins| == i && |queues| == population
      invariant forall k :: 0 <= k < i ==> origins[k] == DecodeAll(workload[..i])[k].from
      invariant forall a :: 0 <= a < population ==> queues[a] == QueueOf(DecodeAll(workload[..i]), a)
    {
      var tx := DecodeTx(workload[i]);
      DecodeLength(workload[i]);
      if tx.None? || !prepares(i) {
        return false, origins, queues;
      }
      assert DecodeAll(workload[..i + 1]) == DecodeAll(workload[..i]) + [tx.value];
      forall a: nat ensures QueueOf(DecodeAll(workload[..i + 1]), a) ==
                            QueueOf(DecodeAll(workload[..i]), a) + if tx.value.from == a then [tx.value] else []
      {
        QueueAppend(DecodeAll(workload[..i]), tx.value, a);
      }
      origins := origins + [tx.value.from];
      queues := queues[tx.value.from := queues[tx.value.from] + [tx.value]];
    }
    assert workload[..|workload|] == workload;
    return true, origins, queues;
  }

  lemma NothingQueued()
    ensures forall a :: QueueOf([], a) == []
  {}

  lemma DecodeLength(b: Bytes)
    ensures DecodeTx(b).None? <==> |b| < 14
  {}

  // ---------- From the controller to the worker ----------

  /** What a thread is given: its intervals, one after the other. */
  function ThreadFlat(w: seq<Secondary>, s: nat, t: nat): (r: seq<Bytes>) {
    if s < |w| && t < |w[s]| then Concat(w[s][t]) else []
  }

  ghost predicate SameIntervals(xs: seq<seq<Bytes>>, plan: seq<seq<Transaction>>) {
    forall i: nat :: (if i < |xs| then xs[i] else []) == if i < |plan| then EncodeAll(plan[i]) else []
  }

  lemma EncodeAppend(a: seq<Transaction>, b: seq<Transaction>)
    ensures EncodeAll(a + b) == EncodeAll(a) + EncodeAll(b)
  {
    hide EncodeTx;
  }

  lemma {:induction false} FlatIsEncoded(xs: seq<seq<Bytes>>, plan: seq<seq<Transaction>>)
    requires SameIntervals(xs, plan)
    ensures Concat(xs) == EncodeAll(Concat(plan))
    decreases |xs| + |plan|
  {
    hide EncodeAll;
    if |xs| == 0 && |plan| == 0 {
      NothingEncoded();
    } else {
      var xs' := if xs == [] then [] else xs[1..];
      var plan' := if plan == [] then [] else plan[1..];
      forall i: nat ensures (if i < |xs'| then xs'[i] else []) == if i < |plan'| then EncodeAll(plan'[i]) else [] {
        assert (if i + 1 < |xs| then xs[i + 1] else []) == if i + 1 < |plan| then EncodeAll(plan[i + 1]) else [];
      }
      FlatIsEncoded(xs', plan');
      assert (if 0 < |xs| then xs[0] else []) == if 0 < |plan| then EncodeAll(plan[0]) else [];
      if plan != [] {
        EncodeAppend(plan[0], Concat(plan'));
      }
    }
  }

  lemma NothingEncoded()
    ensures EncodeAll([]) == []
  {}

  lemma {:induction false} CountAtMost(txs: seq<Transaction>, a: nat)
    ensures CountFrom(txs, a) <= |txs|
  {
    if txs != [] {
      CountAtMost(txs[..|txs| - 1], a);
    }
  }

  lemma PlanFits(txs: seq<Transaction>, froms: seq<nat>, population: nat, size: nat, k: nat)
    requires Aligned(txs) && PlanInRange(txs, froms, population, size) && k < |txs| <= WORD
    requires population <= HALF && size <= HALF && forall i :: 0 <= i < |froms| ==> froms[i] < population
    ensures FitsWire(txs[k]) && txs[k].from < population
  {
    assert txs[k].from in froms;
    CountAtMost(txs[..k], txs[k].from);
  }

  /**
   From the controller to the worker.  When the accounts, the endpoints and the sequence
   numbers fit their fields, the worker of a thread decodes the plan of that thread, and
   slot k of each account's queue is its transaction number k.
   */
  lemma Alignment(w: seq<Secondary>, s: nat, t: nat, plan: seq<seq<Transaction>>, intervals: seq<int>,
                  froms: seq<nat>, population: nat, size: nat, a: nat)
    requires ThreadPlan(plan, intervals, froms, population, size) && Holds(w, s, t, plan)
    requires forall i :: 0 <= i < |froms| ==> froms[i] < population
    requires population <= HALF && size <= HALF && |Concat(plan)| <= WORD
    ensures forall i :: 0 <= i < |ThreadFlat(w, s, t)| ==> |ThreadFlat(w, s, t)[i]| >= 14
    ensures DecodeAll(ThreadFlat(w, s, t)) == Concat(plan)
    ensures var queue := QueueOf(DecodeAll(ThreadFlat(w, s, t)), a);
            forall k :: 0 <= k < |queue| ==> queue[k].sequence == k && queue[k].from == a
  {
    hide EncodeTx, DecodeTx, FitsWire, QueueOf, Aligned, Concat;
    var txs := Concat(plan);
    var flat := ThreadFlat(w, s, t);
    ThreadIntervals(w, s, t, plan);
    forall i | 0 <= i < |txs| ensures DecodeTx(EncodeTx(txs[i])) == Some(txs[i]) {
      PlanFits(txs, froms, population, size, i);
      TxRoundTrip(txs[i]);
    }
    assert flat == EncodeAll(txs);
    assert forall i :: 0 <= i < |txs| ==> Some(DecodeAll(flat)[i]) == DecodeTx(EncodeTx(txs[i]));
    assert DecodeAll(flat) == txs;
    SlotsAligned(txs, a);
  }

  lemma ThreadIntervals(w: seq<Secondary>, s: nat, t: nat, plan: seq<seq<Transaction>>)
    requires Holds(w, s, t, plan)
    ensures ThreadFlat(w, s, t) == EncodeAll(Concat(plan))
  {
    var xs := if s < |w| && t < |w[s]| then w[s][t] else [];
    forall i: nat ensures (if i < |xs| then xs[i] else []) == if i < |plan| then EncodeAll(plan[i]) else [] {
      assert Cell(w, s, t, i) == if i < |xs| then xs[i] else [];
    }
    FlatIsEncoded(xs, plan);
    assert Concat<Bytes>([]) == [];
  }

  /** An account is used by one thread only. */
  lemma OneThreadPerAccount(homes: seq<seq<nat>>, population: nat, threads: nat, s: nat, t: nat, s': nat, t': nat, a: nat)
    requires Dealt(homes, population) && t < threads && t' < threads
    requires Home(s, t, threads) < |homes| && Home(s', t', threads) < |homes|
    requires a in homes[Home(s, t, threads)] && a in homes[Home(s', t', threads)]
    ensures s == s' && t == t'
  {
    HomesPartition(homes, population, a);
    HomeUnique(s, t, s', t', threads);
  }

  lemma {:induction false} QueueLengths(txs: seq<Transaction>, origins: seq<nat>, a: nat)
    requires |origins| == |txs| && forall k :: 0 <= k < |txs| ==> origins[k] == txs[k].from
    ensures DiemSlots.QueueLength(origins, a) == |QueueOf(txs, a)|
  {
    if txs != [] {
      QueueLengths(txs[..|txs| - 1], origins[..|txs| - 1], a);
    }
  }

  /**
   In every interleaving of the worker's goroutines, the slot a goroutine was handed is in
   its account's queue and holds the transaction of that account with that very number.
   */
  lemma SlotHoldsItsNumber(txs: seq<Transaction>, accounts: nat, origins: seq<nat>, steps: DiemSlots.Schedule, i: nat)
    requires Aligned(txs) && |origins| == |txs| && i < |origins|
    requires forall k :: 0 <= k < |txs| ==> origins[k] == txs[k].from && origins[k] < accounts
    ensures var g := DiemSlots.Run(accounts, origins, steps).threads[i];
            !g.NotSent? ==>
              && 0 <= g.slot < |QueueOf(txs, origins[i])|
              && QueueOf(txs, origins[i])[g.slot].sequence == g.slot
              && QueueOf(txs, origins[i])[g.slot].from == origins[i]
  {
    DiemSlots.SlotsAreValid(accounts, origins, steps, i);
    QueueLengths(txs, origins, origins[i]);
    SlotsAligned(txs, origins[i]);
  }
}
