/**
 End to end: every interaction that the primary plans is prepared by the
 secondary for the client it was planned for, is reported, and is collected under
 its own kind; exactly when no plan addresses a client beyond the first 256.
 */
module Conservation {
  import opened Basics
  import opened Outcomes
  import opened Permutations
  import opened Wire
  import opened Protocol

  // ---------- Planning ----------

  /** The interactions among some messages, as a receiver without width limits would see them. */
  function Interactions(ms: seq<Prepare>): (r: seq<Iact>) {
    if ms == [] then []
    else
      var m := ms[|ms| - 1];
      Interactions(ms[..|ms| - 1]) + if m.Interaction? then [Iact(m.index, m.kind, m.time, m.payload)] else []
  }

  ghost predicate Known(clients: seq<Sender>, x: Iact) {
    0 <= x.client < |clients| && 0 <= x.kind < |clients[x.client].kinds|
  }

  ghost predicate AllKnown(clients: seq<Sender>, xs: seq<Iact>) {
    forall i :: 0 <= i < |xs| ==> Known(clients, xs[i])
  }

  /** An interaction with its kind by name. */
  function Name(clients: seq<Sender>, x: Iact): (r: Sending) {
    Sending(x.client,
            if 0 <= x.client < |clients| && 0 <= x.kind < |clients[x.client].kinds|
            then clients[x.client].kinds[x.kind] else [],
            x.time, x.payload)
  }

  function Names(clients: seq<Sender>, xs: seq<Iact>): (r: seq<Sending>)
    ensures |r| == |xs| && forall i :: 0 <= i < |r| ==> r[i] == Name(clients, xs[i])
  {
    seq(|xs|, i requires 0 <= i < |xs| => Name(clients, xs[i]))
  }

  ghost predicate AllInterned(clients: seq<Sender>) {
    forall i :: 0 <= i < |clients| ==> Interned(clients[i])
  }

  /** The clients among some messages, as they announce them. */
  function Announced(ms: seq<Prepare>): (r: seq<Prepare>) {
    if ms == [] then []
    else
      var m := ms[|ms| - 1];
      Announced(ms[..|ms| - 1]) + if m.Client? then [m] else []
  }

  /** The clients created are kept, and announced, in order, each under its number. */
  ghost predicate ClientsKept(p: Primary, created: seq<Creation>) {
    && |p.clients| == |Announced(p.sent)| == |created|
    && (forall i :: 0 <= i < |created| ==> p.clients[i].kind == created[i].kind)
    && (forall i :: 0 <= i < |created| ==> Announced(p.sent)[i] == Client(created[i].view, i))
  }

  /** What the plan keeps: its messages carry the clients and the interactions of its operations. */
  ghost predicate Planned(p: Primary, ops: seq<Op>) {
    && ClientsKept(p, Created(ops))
    && AllInterned(p.clients)
    && (forall i :: 0 <= i < |p.sent| ==> PrepareAccepted(p.sent[i]) && !p.sent[i].Done?)
    && AllKnown(p.clients, Interactions(p.sent))
    && Names(p.clients, Interactions(p.sent)) == Sent(ops)
  }

  /** Clients only grow: kinds are appended and never renumbered. */
  ghost predicate Grows(a: seq<Sender>, b: seq<Sender>) {
    |a| <= |b| && forall i :: 0 <= i < |a| ==> a[i].kinds <= b[i].kinds && a[i].kind == b[i].kind
  }

  lemma NamesGrow(a: seq<Sender>, b: seq<Sender>, xs: seq<Iact>)
    requires Grows(a, b) && AllKnown(a, xs)
    ensures AllKnown(b, xs) && Names(b, xs) == Names(a, xs)
  {
    forall i | 0 <= i < |xs| ensures Known(b, xs[i]) && Name(b, xs[i]) == Name(a, xs[i]) {
      assert Known(a, xs[i]);
    }
  }

  lemma InteractionsAppend(ms: seq<Prepare>, m: Prepare)
    ensures Interactions(ms + [m]) ==
            Interactions(ms) + if m.Interaction? then [Iact(m.index, m.kind, m.time, m.payload)] else []
  {
    assert (ms + [m])[..|ms|] == ms;
  }

  lemma AnnouncedAppend(ms: seq<Prepare>, m: Prepare)
    ensures Announced(ms + [m]) == Announced(ms) + if m.Client? then [m] else []
  {
    assert (ms + [m])[..|ms|] == ms;
  }

  lemma ClientsKeptStep(p: Primary, ops: seq<Op>, op: Op)
    requires ClientsKept(p, Created(ops)) && AfterOp(p, op).Some?
    ensures ClientsKept(AfterOp(p, op).value, Created(ops + [op]))
  {
    hide PrepareAccepted, Announced;
    var p' := AfterOp(p, op).value;
    assert (ops + [op])[..|ops|] == ops;
    AnnouncedAppend(p.sent, p'.sent[|p.sent|]);
    assert p'.sent == p.sent + [p'.sent[|p.sent|]];
  }

  lemma PlannedCreate(p: Primary, ops: seq<Op>, op: Op)
    requires Planned(p, ops) && op.Create? && AfterOp(p, op).Some?
    ensures Planned(AfterOp(p, op).value, ops + [op])
  {
    hide Interned, PrepareAccepted, Name, Names, ClientsKept;
    var p' := AfterOp(p, op).value;
    ClientsKeptStep(p, ops, op);
    assert (ops + [op])[..|ops|] == ops;
    InteractionsAppend(p.sent, Client(op.view, |p.clients|));
    NamesGrow(p.clients, p'.clients, Interactions(p.sent));
    FreshSender(op.kind);
  }

  lemma FreshSender(kind: Bytes)
    ensures Interned(Sender(kind, [], map[]))
  {}

  lemma InternKeeps(s: Sender, ikind: Bytes)
    requires Interned(s)
    ensures var (s', k) := Intern(s, ikind);
            && Interned(s') && s.kinds <= s'.kinds && s'.kind == s.kind
            && k < |s'.kinds| && s'.kinds[k] == ikind
  {}

  lemma PlannedSend(p: Primary, ops: seq<Op>, op: Op)
    requires Planned(p, ops) && op.Send? && AfterOp(p, op).Some?
    ensures Planned(AfterOp(p, op).value, ops + [op])
  {
    hide Interned, Intern, PrepareAccepted, Names, ClientsKept, Announced, Created;
    var p' := AfterOp(p, op).value;
    ClientsKeptStep(p, ops, op);
    var (s, k) := Intern(p.clients[op.client], op.ikind);
    var x := Iact(op.client, k, op.time, op.payload);
    InternKeeps(p.clients[op.client], op.ikind);
    assert (ops + [op])[..|ops|] == ops;
    InteractionsAppend(p.sent, Interaction(op.client, k, op.time, op.payload));
    NamesGrow(p.clients, p'.clients, Interactions(p.sent));
    assert Name(p'.clients, x) == Sending(op.client, op.ikind, op.time, op.payload);
    NamesAppend(p'.clients, Interactions(p.sent), x);
  }

  lemma NamesAppend(clients: seq<Sender>, xs: seq<Iact>, x: Iact)
    ensures Names(clients, xs + [x]) == Names(clients, xs) + [Name(clients, x)]
  {}

  lemma {:induction false} PlanIsPlanned(ops: seq<Op>)
    requires Plan(ops).Some?
    ensures Planned(Plan(ops).value, ops)
  {
    if ops != [] {
      var init, op := ops[..|ops| - 1], ops[|ops| - 1];
      PlanIsPlanned(init);
      assert ops == init + [op];
      if op.Create? {
        PlannedCreate(Plan(init).value, init, op);
      } else {
        PlannedSend(Plan(init).value, init, op);
      }
    }
  }

  // ---------- Preparing ----------

  /** The prepare loop over messages instead of bytes. */
  function Handle(rt: Runtime, ms: seq<Prepare>): (r: Option<Runtime>)
    requires forall i :: 0 <= i < |ms| ==> !ms[i].Done?
  {
    if ms == [] then Some(rt)
    else
      match Handle(rt, ms[..|ms| - 1])
      case None => None
      case Some(rt1) => AfterPrepare(rt1, ms[|ms| - 1])
  }

  lemma {:induction false} HandleFirst(rt: Runtime, ms: seq<Prepare>)
    requires ms != [] && forall i :: 0 <= i < |ms| ==> !ms[i].Done?
    ensures Handle(rt, ms) ==
            match AfterPrepare(rt, ms[0])
            case None => None
            case Some(rt1) => Handle(rt1, ms[1..])
  {
    if |ms| == 1 {
      assert ms[..0] == [] && ms[1..] == [];
    } else {
      var init := ms[..|ms| - 1];
      HandleFirst(rt, init);
      assert init[1..] == ms[1..][..|ms| - 2];
    }
  }

  /** Reading the bytes of some messages, then Done, is handling the messages as received. */
  lemma {:induction false} PrepareFromBytes(rt: Runtime, ms: seq<Prepare>)
    requires forall i :: 0 <= i < |ms| ==> PrepareAccepted(ms[i]) && !ms[i].Done?
    ensures PrepareFrom(rt, PutPrepares(ms) + [0]) == Handle(rt, ReceivedPrepares(ms))
    decreases |ms|
  {
    hide PrepareAccepted, PutPrepare, GetPrepare, ReceivedPrepares;
    if ms == [] {
      DoneRoundTrip();
      assert PutPrepares(ms) + [0] == [0];
    } else {
      var rest := PutPrepares(ms[1..]) + [0];
      assert PutPrepares(ms) + [0] == PutPrepare(ms[0]).value + rest;
      PrepareRoundTrip(ms[0], rest);
      var received := ReceivedPrepares(ms);
      assert received[1..] == ReceivedPrepares(ms[1..]);
      HandleFirst(rt, received);
      match AfterPrepare(rt, received[0])
      case None =>
      case Some(rt1) => PrepareFromBytes(rt1, ms[1..]);
    }
  }

  lemma DoneRoundTrip()
    ensures GetPrepare([0]) == Some((Done, []))
  {
    PrepareRoundTrip(Done, []);
    assert [0] + [] == [0];
  }

  const EMPTY: Runtime := Runtime(map[], [])

  /** An interaction after its client index went through a byte. */
  function Wrapped(x: Iact): (r: Iact) {
    x.(client := x.client % BYTE)
  }

  function AllWrapped(xs: seq<Iact>): (r: seq<Iact>)
    ensures |r| == |xs| && forall i :: 0 <= i < |r| ==> r[i] == Wrapped(xs[i])
  {
    seq(|xs|, i requires 0 <= i < |xs| => Wrapped(xs[i]))
  }

  /** The prepared state of a plan: all its clients with their views, and its interactions with their clients modulo 256. */
  ghost predicate Prepared(p: Primary, r: Option<Runtime>) {
    && r.Some?
    && |Announced(p.sent)| == |p.clients|
    && (forall i :: i in r.value.clients <==> 0 <= i < |p.clients|)
    && (forall i :: 0 <= i < |p.clients| ==> Announced(p.sent)[i] == Client(r.value.clients[i], i))
    && r.value.iacts == AllWrapped(Interactions(p.sent))
  }

  lemma WrappedMore(xs: seq<Iact>, x: Iact)
    ensures AllWrapped(xs + [x]) == AllWrapped(xs) + [Wrapped(x)]
  {}

  lemma PreparedCreate(p: Primary, op: Op, r: Option<Runtime>)
    requires Prepared(p, r) && op.Create? && AfterOp(p, op).Some?
    ensures Prepared(AfterOp(p, op).value, AfterPrepare(r.value, ReceivedPrepare(Client(op.view, |p.clients|))))
  {
    hide Interactions, AllWrapped, Announced, AllShort;
    InteractionsAppend(p.sent, Client(op.view, |p.clients|));
    AnnouncedAppend(p.sent, Client(op.view, |p.clients|));
    var p', n := AfterOp(p, op).value, |p.clients|;
    assert n % WORD == n;
    var clients := r.value.clients[n := op.view];
    assert p'.sent == p.sent + [Client(op.view, n)];
    forall i | 0 <= i < n + 1 ensures Announced(p'.sent)[i] == Client(clients[i], i) {
      assert i < n ==> Announced(p'.sent)[i] == Announced(p.sent)[i];
    }
  }

  lemma PreparedSend(p: Primary, op: Op, r: Option<Runtime>)
    requires Prepared(p, r) && op.Send? && AfterOp(p, op).Some? && AllInterned(p.clients)
    ensures var k := Intern(p.clients[op.client], op.ikind).1;
            Prepared(AfterOp(p, op).value,
                     AfterPrepare(r.value, ReceivedPrepare(Interaction(op.client, k, op.time, op.payload))))
  {
    var k := Intern(p.clients[op.client], op.ikind).1;
    InternKeeps(p.clients[op.client], op.ikind);
    InteractionsAppend(p.sent, Interaction(op.client, k, op.time, op.payload));
    WrappedMore(Interactions(p.sent), Iact(op.client, k, op.time, op.payload));
    AnnouncedAppend(p.sent, Interaction(op.client, k, op.time, op.payload));
    hide Interned, Interactions, AllWrapped, Intern, Announced;
    assert op.client % BYTE <= op.client && k % BYTE == k;
  }

  lemma PreparedStep(p: Primary, op: Op, r: Option<Runtime>)
    requires Prepared(p, r) && AfterOp(p, op).Some? && AllInterned(p.clients)
    ensures var p' := AfterOp(p, op).value;
            && |p'.sent| == |p.sent| + 1 && p'.sent[..|p.sent|] == p.sent && !p'.sent[|p.sent|].Done?
            && Prepared(p', AfterPrepare(r.value, ReceivedPrepare(p'.sent[|p.sent|])))
  {
    if op.Create? {
      PreparedCreate(p, op, r);
    } else {
      PreparedSend(p, op, r);
    }
    hide Prepared, AfterPrepare, ReceivedPrepare, Intern, Interned;
  }

  lemma {:induction false} PlanIsPrepared(ops: seq<Op>)
    requires Plan(ops).Some?
    ensures (forall i :: 0 <= i < |Plan(ops).value.sent| ==> !Plan(ops).value.sent[i].Done?)
    ensures Prepared(Plan(ops).value, Handle(EMPTY, ReceivedPrepares(Plan(ops).value.sent)))
  {
    hide ReceivedPrepares, AfterOp, AfterPrepare, Interactions;
    var p := Plan(ops).value;
    if ops == [] {
      assert ReceivedPrepares(p.sent) == [];
      NothingPrepared();
    } else {
      var init := ops[..|ops| - 1];
      PlanIsPrepared(init);
      PlanIsPlanned(init);
      var before := Plan(init).value;
      var received := ReceivedPrepares(before.sent);
      PreparedStep(before, ops[|ops| - 1], Handle(EMPTY, received));
      assert ReceivedPrepares(p.sent)[..|before.sent|] == received;
    }
  }

  lemma NothingPrepared()
    ensures Prepared(Primary([], []), Some(EMPTY))
  {}

  // ---------- Collecting ----------

  ghost predicate InRange(clients: seq<Sender>, m: Result) {
    m.ResultInteraction? && 0 <= m.index < |clients| && 0 <= m.kind < |clients[m.index].kinds|
  }

  /** What a result says, under the name of its kind. */
  function Filed(clients: seq<Sender>, m: Result): (r: InteractionResult)
    requires InRange(clients, m)
  {
    InteractionResult(clients[m.index].kinds[m.kind], Outcome(m.submit, m.commit, m.abort, m.hasError))
  }

  /** What some results add to a client. */
  function Reported(clients: seq<Sender>, ms: seq<Result>, id: int): (r: seq<InteractionResult>)
    requires forall i :: 0 <= i < |ms| ==> InRange(clients, ms[i])
  {
    if ms == [] then []
    else
      var m := ms[0];
      assert InRange(clients, m);
      (if m.index == id then [Filed(clients, m)] else []) + Reported(clients, ms[1..], id)
  }

  lemma AddResultKeeps(clients: seq<Sender>, c: SecondaryResult, m: Result)
    requires ValidResult(clients, c) && InRange(clients, m)
    ensures AfterResult(clients, c, m).Some?
    ensures ValidResult(clients, AfterResult(clients, c, m).value)
  {}

  lemma AddResultFiles(clients: seq<Sender>, c: SecondaryResult, m: Result, id: int)
    requires ValidResult(clients, c) && InRange(clients, m)
    requires ValidResult(clients, AfterResult(clients, c, m).value)
    ensures ResultsOf(AfterResult(clients, c, m).value, id) ==
            ResultsOf(c, id) + if m.index == id then [Filed(clients, m)] else []
  {}

  /** Collecting succeeds exactly when every result is in range, and then lists what was reported. */
  lemma {:induction false} CollectFromBytes(clients: seq<Sender>, c: SecondaryResult, ms: seq<Result>)
    requires ValidResult(clients, c)
    requires forall i :: 0 <= i < |ms| ==>
               ResultAccepted(ms[i]) && ms[i].ResultInteraction? && ms[i].index >= 0 && ms[i].kind >= 0
    ensures var r := CollectFrom(clients, c, PutResults(ms) + [0]);
            && (r.Some? <==> forall i :: 0 <= i < |ms| ==> InRange(clients, ms[i]))
            && (r.Some? ==> ValidResult(clients, r.value)
                            && forall id :: ResultsOf(r.value, id) == ResultsOf(c, id) + Reported(clients, ms, id))
    decreases |ms|
  {
    hide GetResult, PutResult, ResultsOf, Filed, AfterResult, ValidResult;
    OffsetsInRange(clients, c);
    if ms == [] {
      ResultDoneRoundTrip();
      assert PutResults(ms) + [0] == [0];
    } else {
      var rest := PutResults(ms[1..]) + [0];
      assert PutResults(ms) + [0] == PutResult(ms[0]).value + rest;
      ResultRoundTrip(ms[0], rest);
      NotChanged(ms[0]);
      if InRange(clients, ms[0]) {
        AddResultKeeps(clients, c, ms[0]);
        var c1 := AfterResult(clients, c, ms[0]).value;
        OffsetsInRange(clients, c1);
        CollectFromBytes(clients, c1, ms[1..]);
        forall id ensures ResultsOf(c1, id) ==
                          ResultsOf(c, id) + if ms[0].index == id then [Filed(clients, ms[0])] else []
        {
          AddResultFiles(clients, c, ms[0], id);
        }
      } else {
        OutOfRange(clients, c, ms[0]);
      }
    }
  }

  lemma OffsetsInRange(clients: seq<Sender>, c: SecondaryResult)
    requires ValidResult(clients, c)
    ensures forall x :: x in c.ids ==> c.ids[x] < |c.clients|
  {}

  lemma OutOfRange(clients: seq<Sender>, c: SecondaryResult, m: Result)
    requires ValidResult(clients, c) && !InRange(clients, m)
    requires m.ResultInteraction? && m.index >= 0 && m.kind >= 0
    ensures AfterResult(clients, c, m).None?
  {}

  lemma NotChanged(m: Result)
    requires m.ResultInteraction? && ResultAccepted(m) && m.index >= 0 && m.kind >= 0
    ensures ReceivedResult(m) == m
  {}

  lemma ResultDoneRoundTrip()
    ensures GetResult([0]) == Some((ResultDone, []))
  {
    ResultRoundTrip(ResultDone, []);
    assert [0] + [] == [0];
  }

  // ---------- Counting ----------

  /** What belongs to one client, in its order. */
  function Project<V>(s: seq<(int, V)>, id: int): (r: seq<V>) {
    if s == [] then []
    else (if s[0].0 == id then [s[0].1] else []) + Project(s[1..], id)
  }

  lemma {:induction false} ProjectCounts<V>(s: seq<(int, V)>, id: int, v: V)
    ensures multiset(Project(s, id))[v] == multiset(s)[(id, v)]
  {
    if s != [] {
      ProjectCounts(s[1..], id, v);
      FirstCounts(s);
      var first := if s[0].0 == id then [s[0].1] else [];
      assert multiset(Project(s, id)) == multiset(first) + multiset(Project(s[1..], id));
    }
  }

  lemma ProjectPermutes<V(!new)>(a: seq<(int, V)>, b: seq<(int, V)>, id: int)
    requires multiset(a) == multiset(b)
    ensures multiset(Project(a, id)) == multiset(Project(b, id))
  {
    forall v ensures multiset(Project(a, id))[v] == multiset(Project(b, id))[v] {
      ProjectCounts(a, id, v);
      ProjectCounts(b, id, v);
    }
  }

  // ---------- End to end ----------

  /** No interaction is addressed to a client beyond the first 256. */
  ghost predicate Addressable(ops: seq<Op>) {
    forall i :: 0 <= i < |ops| && ops[i].Send? ==> ops[i].client < BYTE
  }

  lemma AddressableMore(ops: seq<Op>, op: Op)
    ensures Addressable(ops + [op]) <==> Addressable(ops) && (op.Send? ==> op.client < BYTE)
  {
    var more := ops + [op];
    assert more[|ops|] == op;
    assert forall i :: 0 <= i < |ops| ==> more[i] == ops[i];
  }

  lemma {:induction false} AddressableSent(ops: seq<Op>)
    ensures Addressable(ops) <==> forall j :: 0 <= j < |Sent(ops)| ==> Sent(ops)[j].client < BYTE
  {
    if ops != [] {
      var init, op := ops[..|ops| - 1], ops[|ops| - 1];
      AddressableSent(init);
      AddressableMore(init, op);
      assert ops == init + [op];
      if op.Send? {
        var sending := Sending(op.client, op.ikind, op.time, op.payload);
        assert Sent(ops) == Sent(init) + [sending];
        assert Sent(ops)[|Sent(init)|] == sending;
        assert forall j :: 0 <= j < |Sent(init)| ==> Sent(ops)[j] == Sent(init)[j];
      } else {
        assert Sent(ops) == Sent(init);
      }
    }
  }

  function Iacts(jobs: seq<Job>): (r: seq<Iact>)
    ensures |r| == |jobs| && forall i :: 0 <= i < |r| ==> r[i] == jobs[i].iact
  {
    Map((j: Job) => j.iact, jobs)
  }

  lemma IactsPermute(a: seq<Job>, b: seq<Job>)
    requires multiset(a) == multiset(b)
    ensures multiset(Iacts(a)) == multiset(Iacts(b))
  {
    MapPermutes((j: Job) => j.iact, a, b);
  }

  /** What the runtime keeps of the reports of each interaction. */
  function Fates(reports: seq<seq<Event>>): (r: seq<Fate>)
    ensures |r| == |reports| && forall i :: 0 <= i < |r| ==> r[i] == FateOf(reports[i])
  {
    seq(|reports|, i requires 0 <= i < |reports| => FateOf(reports[i]))
  }

  /** Interactions with what has become of each. */
  function Fated(xs: seq<Iact>, fates: seq<Fate>): (r: seq<Job>)
    requires |xs| == |fates|
    ensures |r| == |xs| && forall i :: 0 <= i < |r| ==> r[i] == Job(xs[i], fates[i])
  {
    seq(|xs|, i requires 0 <= i < |xs| => Job(xs[i], fates[i]))
  }

  lemma {:induction false} AllEventsExist(fates: seq<Fate>) returns (reports: seq<seq<Event>>)
    ensures Fates(reports) == fates
  {
    if fates == [] {
      reports := [];
    } else {
      var first := EventsExist(fates[0]);
      var rest := AllEventsExist(fates[1..]);
      reports := [first] + rest;
    }
  }

  /** However the interactions were reordered, what was reported of each of them can be told in their first order. */
  lemma ReportsExist(xs: seq<Iact>, jobs: seq<Job>) returns (reports: seq<seq<Event>>)
    requires multiset(Iacts(jobs)) == multiset(xs)
    ensures |reports| == |xs| && multiset(jobs) == multiset(Fated(xs, Fates(reports)))
  {
    var planned := Align((j: Job) => j.iact, xs, jobs);
    assert Iacts(planned) == xs;
    var fates := seq(|xs|, i requires 0 <= i < |xs| => planned[i].fate);
    assert Fated(xs, fates) == planned;
    reports := AllEventsExist(fates);
  }

  /** The client of an interaction, with the name of its kind and its outcome. */
  function Label(clients: seq<Sender>, j: Job): (r: (int, InteractionResult)) {
    (j.iact.client, InteractionResult(Name(clients, j.iact).kind, OutcomeOf(j.fate)))
  }

  function Labels(clients: seq<Sender>, jobs: seq<Job>): (r: seq<(int, InteractionResult)>)
    ensures |r| == |jobs| && forall i :: 0 <= i < |r| ==> r[i] == Label(clients, jobs[i])
  {
    Map((j: Job) => Label(clients, j), jobs)
  }

  lemma LabelsPermute(clients: seq<Sender>, a: seq<Job>, b: seq<Job>)
    requires multiset(a) == multiset(b)
    ensures multiset(Labels(clients, a)) == multiset(Labels(clients, b))
  {
    MapPermutes((j: Job) => Label(clients, j), a, b);
  }

  /** What is to be collected: the interactions sent, each with the outcome of its reports. */
  function Expected(sent: seq<Sending>, reports: seq<seq<Event>>): (r: seq<(int, InteractionResult)>)
    requires |sent| == |reports|
    ensures |r| == |sent|
    ensures forall i :: 0 <= i < |r| ==>
              && r[i].0 == sent[i].client && r[i].1.kind == sent[i].kind && Describes(reports[i], r[i].1.outcome)
  {
    seq(|sent|, i requires 0 <= i < |sent| => (sent[i].client, InteractionResult(sent[i].kind, OutcomeBy(reports[i]))))
  }

  lemma LabelsAreExpected(clients: seq<Sender>, xs: seq<Iact>, sent: seq<Sending>, reports: seq<seq<Event>>)
    requires Names(clients, xs) == sent && |reports| == |xs|
    ensures |sent| == |xs| && Labels(clients, Fated(xs, Fates(reports))) == Expected(sent, reports)
  {
    hide Describes, FateOf, OutcomeOf;
    var labels, expected := Labels(clients, Fated(xs, Fates(reports))), Expected(sent, reports);
    forall i | 0 <= i < |xs| ensures labels[i] == expected[i] {
      assert sent[i] == Name(clients, xs[i]);
      ReportedOutcome(reports[i]);
      DescribesUnique(reports[i], labels[i].1.outcome, expected[i].1.outcome);
    }
  }

  lemma ReportedOutcome(es: seq<Event>)
    ensures Describes(es, OutcomeOf(FateOf(es)))
  {
    var o := OutcomeBy(es);
  }

  /** Results of interactions whose client and kind fit in a byte. */
  ghost predicate Small(xs: seq<Iact>) {
    forall i :: 0 <= i < |xs| ==> 0 <= xs[i].client < BYTE && 0 <= xs[i].kind < BYTE
  }

  lemma SmallPermutes(a: seq<Iact>, b: seq<Iact>)
    requires multiset(a) == multiset(b) && Small(a)
    ensures Small(b)
  {
    forall i | 0 <= i < |b| ensures 0 <= b[i].client < BYTE && 0 <= b[i].kind < BYTE {
      assert b[i] in multiset(b);
      assert b[i] in a;
    }
  }

  lemma KnownPermutes(clients: seq<Sender>, a: seq<Iact>, b: seq<Iact>)
    requires multiset(a) == multiset(b) && AllKnown(clients, a)
    ensures AllKnown(clients, b)
  {
    forall i | 0 <= i < |b| ensures Known(clients, b[i]) {
      assert b[i] in multiset(b);
      assert b[i] in a;
    }
  }

  /** What is reported for a client are its interactions, in the order of the results. */
  lemma {:induction false} ReportedProjects(clients: seq<Sender>, jobs: seq<Job>, id: int)
    requires AllKnown(clients, Iacts(jobs))
    ensures forall i :: 0 <= i < |jobs| ==> InRange(clients, Report(jobs)[i])
    ensures Reported(clients, Report(jobs), id) == Project(Labels(clients, jobs), id)
  {
    var ms, xs := Report(jobs), Iacts(jobs);
    forall i | 0 <= i < |jobs| ensures InRange(clients, ms[i]) {
      assert Known(clients, xs[i]);
    }
    if jobs != [] {
      assert ms[1..] == Report(jobs[1..]);
      assert xs[1..] == Iacts(jobs[1..]);
      assert Labels(clients, jobs)[1..] == Labels(clients, jobs[1..]);
      ReportedProjects(clients, jobs[1..], id);
      assert Label(clients, jobs[0]) == (ms[0].index, Filed(clients, ms[0])) by {
        assert Known(clients, xs[0]);
      }
    }
  }

  lemma {:induction false} NothingReported(clients: seq<Sender>, ms: seq<Result>, id: int)
    requires forall i :: 0 <= i < |ms| ==> InRange(clients, ms[i]) && ms[i].index != id
    ensures Reported(clients, ms, id) == []
  {
    if ms != [] {
      NothingReported(clients, ms[1..], id);
    }
  }

  const NOTHING: SecondaryResult := SecondaryResult(map[], [])

  /** Every client listed is listed once, under the kind it was created with. */
  ghost predicate Listed(created: seq<Creation>, c: SecondaryResult) {
    && (forall x :: x in c.ids ==> c.ids[x] < |c.clients| && 0 <= x < |created| && c.clients[c.ids[x]].index == x)
    && (forall i :: 0 <= i < |c.clients| ==>
          && c.clients[i].index in c.ids && c.ids[c.clients[i].index] == i
          && c.clients[i].kind == created[c.clients[i].index].kind)
  }

  /**
   The collected result lists, for every client, exactly the interactions sent to it,
   each under its kind and with the outcome of its reports, and lists each client once
   and under the kind it was created with.
   */
  ghost predicate Conserved(ops: seq<Op>, reports: seq<seq<Event>>, r: Option<SecondaryResult>)
    requires |reports| == |Sent(ops)|
  {
    && r.Some?
    && Listed(Created(ops), r.value)
    && forall id :: multiset(ResultsOf(r.value, id)) == multiset(Project(Expected(Sent(ops), reports), id))
  }

  /** The bytes of the results of a secondary, then Done. */
  ghost function ResultBytes(ms: seq<Result>): (r: Bytes)
    requires forall i :: 0 <= i < |ms| ==> ResultAccepted(ms[i])
  {
    PutResults(ms) + [0]
  }

  lemma WrappedIsSmall(ops: seq<Op>, p: Primary)
    requires Plan(ops) == Some(p)
    ensures Small(AllWrapped(Interactions(p.sent)))
    ensures Addressable(ops) ==> AllWrapped(Interactions(p.sent)) == Interactions(p.sent)
  {
    hide Plan, Interactions, Sent, Addressable, PrepareAccepted, Interned;
    PlanIsPlanned(ops);
    AddressableSent(ops);
    var xs := Interactions(p.sent);
    KindsFit(p.sent);
    forall i | 0 <= i < |xs|
      ensures 0 <= xs[i].kind < BYTE && 0 <= xs[i].client && Sent(ops)[i].client == xs[i].client
    {
      assert Known(p.clients, xs[i]);
      assert Names(p.clients, xs)[i] == Name(p.clients, xs[i]);
    }
    if Addressable(ops) {
      forall i | 0 <= i < |xs| ensures Wrapped(xs[i]) == xs[i] {
        assert Sent(ops)[i].client < BYTE;
      }
    }
  }

  lemma {:induction false} KindsFit(ms: seq<Prepare>)
    requires forall i :: 0 <= i < |ms| ==> PrepareAccepted(ms[i])
    ensures forall i :: 0 <= i < |Interactions(ms)| ==> Interactions(ms)[i].kind < BYTE
  {
    if ms != [] {
      KindsFit(ms[..|ms| - 1]);
      assert PrepareAccepted(ms[|ms| - 1]);
    }
  }

  /** The secondary prepares every plan, each client with its view and each interaction with its client modulo 256. */
  lemma SecondaryPrepares(ops: seq<Op>, p: Primary)
    requires Plan(ops) == Some(p)
    ensures forall i :: 0 <= i < |p.sent| ==> PrepareAccepted(p.sent[i])
    ensures var r := PrepareFrom(EMPTY, PlanBytes(p));
            && Prepared(p, r)
            && (forall i :: i in r.value.clients <==> 0 <= i < |Created(ops)|)
            && (forall i :: i in r.value.clients ==> r.value.clients[i] == Created(ops)[i].view)
  {
    hide Plan, Created, Sent, Interactions, Announced, PutPrepares, PrepareFrom, Handle, AllWrapped;
    PlanIsPlanned(ops);
    PlanIsPrepared(ops);
    PrepareFromBytes(EMPTY, p.sent);
  }

  /** The secondary has every interaction as it was sent, in order, exactly when no wide client is addressed. */
  lemma PreparedAsSent(ops: seq<Op>, p: Primary)
    requires Plan(ops) == Some(p)
    ensures forall i :: 0 <= i < |p.sent| ==> PrepareAccepted(p.sent[i])
    ensures var r := PrepareFrom(EMPTY, PlanBytes(p));
            r.Some? && (Names(p.clients, r.value.iacts) == Sent(ops) <==> Addressable(ops))
  {
    hide Plan, PrepareFrom, Interactions, Sent, Addressable, Name, Interned, PrepareAccepted;
    SecondaryPrepares(ops, p);
    var rt := PrepareFrom(EMPTY, PlanBytes(p)).value;
    PlanIsPlanned(ops);
    WrappedIsSmall(ops, p);
    AddressableSent(ops);
    if Names(p.clients, rt.iacts) == Sent(ops) {
      forall j | 0 <= j < |Sent(ops)| ensures Sent(ops)[j].client < BYTE {
        NameKeepsClient(p.clients, rt.iacts[j]);
        assert Names(p.clients, rt.iacts)[j] == Name(p.clients, rt.iacts[j]);
      }
    }
  }

  lemma NameKeepsClient(clients: seq<Sender>, x: Iact)
    ensures Name(clients, x).client == x.client
  {}

  lemma ResultsAccepted(jobs: seq<Job>)
    requires Small(Iacts(jobs))
    ensures forall i :: 0 <= i < |jobs| ==>
              var m := Report(jobs)[i];
              && ResultAccepted(m) && m.ResultInteraction? && 0 <= m.index < BYTE && m.kind >= 0
  {
    forall i | 0 <= i < |jobs|
      ensures var m := Report(jobs)[i];
              ResultAccepted(m) && m.ResultInteraction? && 0 <= m.index < BYTE && m.kind >= 0
    {
      assert Iacts(jobs)[i] == jobs[i].iact;
    }
  }

  /** When a client beyond the first 256 was addressed, nothing is ever reported for it. */
  lemma NotConserved(ops: seq<Op>, reports: seq<seq<Event>>, clients: seq<Sender>, ms: seq<Result>)
    requires !Addressable(ops) && |reports| == |Sent(ops)|
    requires forall i :: 0 <= i < |ms| ==>
               ResultAccepted(ms[i]) && ms[i].ResultInteraction? && 0 <= ms[i].index < BYTE && ms[i].kind >= 0
    ensures !Conserved(ops, reports, CollectFrom(clients, NOTHING, ResultBytes(ms)))
  {
    hide Project, Sent, Reported, Addressable, Describes, Created;
    AddressableSent(ops);
    var j :| 0 <= j < |Sent(ops)| && Sent(ops)[j].client >= BYTE;
    var expected := Expected(Sent(ops), reports);
    var (id, result) := expected[j];
    ProjectCounts(expected, id, result);
    assert (id, result) in multiset(expected);
    CollectFromBytes(clients, NOTHING, ms);
    var r := CollectFrom(clients, NOTHING, ResultBytes(ms));
    if r.Some? {
      NothingReported(clients, ms, id);
      assert ResultsOf(r.value, id) == ResultsOf(NOTHING, id) + Reported(clients, ms, id) == [];
      assert multiset(ResultsOf(r.value, id))[result] == 0;
    }
  }

  lemma ListedIfValid(p: Primary, created: seq<Creation>, c: SecondaryResult)
    requires ClientsKept(p, created) && ValidResult(p.clients, c)
    ensures Listed(created, c)
  {
    hide Announced;
  }

  lemma IsConserved(ops: seq<Op>, p: Primary, reports: seq<seq<Event>>, jobs: seq<Job>)
    requires Planned(p, ops) && |reports| == |Sent(ops)| == |Interactions(p.sent)|
    requires multiset(jobs) == multiset(Fated(Interactions(p.sent), Fates(reports))) && Small(Iacts(jobs))
    ensures forall i :: 0 <= i < |jobs| ==> ResultAccepted(Report(jobs)[i])
    ensures Conserved(ops, reports, CollectFrom(p.clients, NOTHING, ResultBytes(Report(jobs))))
  {
    hide Names, Project, Sent, Reported, ResultsOf, CollectFrom, PutResults, Iacts, Labels, Fated, Expected;
    hide Fates, Describes, ClientsKept, Listed, Created;
    var xs, ms, fates := Interactions(p.sent), Report(jobs), Fates(reports);
    ResultsAccepted(jobs);
    IactsPermute(jobs, Fated(xs, fates));
    assert Iacts(Fated(xs, fates)) == xs;
    KnownPermutes(p.clients, xs, Iacts(jobs));
    ReportedProjects(p.clients, jobs, 0);
    CollectFromBytes(p.clients, NOTHING, ms);
    var r := CollectFrom(p.clients, NOTHING, ResultBytes(ms));
    ListedIfValid(p, Created(ops), r.value);
    LabelsPermute(p.clients, jobs, Fated(xs, fates));
    LabelsAreExpected(p.clients, xs, Sent(ops), reports);
    var expected := Expected(Sent(ops), reports);
    forall id ensures multiset(ResultsOf(r.value, id)) == multiset(Project(expected, id)) {
      ReportedProjects(p.clients, jobs, id);
      NothingYet(id);
      assert ResultsOf(r.value, id) == Project(Labels(p.clients, jobs), id);
      ProjectPermutes(Labels(p.clients, jobs), expected, id);
    }
  }

  lemma NothingYet(id: int)
    ensures ResultsOf(NOTHING, id) == []
  {}

  /** A plan is prepared with one interaction for each that was sent. */
  lemma PreparedCount(ops: seq<Op>, p: Primary)
    requires Plan(ops) == Some(p)
    ensures forall i :: 0 <= i < |p.sent| ==> PrepareAccepted(p.sent[i])
    ensures var r := PrepareFrom(EMPTY, PlanBytes(p));
            && r.Some? && r.value.iacts == AllWrapped(Interactions(p.sent))
            && |r.value.iacts| == |Sent(ops)| == |Interactions(p.sent)|
  {
    hide Plan, PrepareFrom, Interactions, AllWrapped;
    SecondaryPrepares(ops, p);
    PlanIsPlanned(ops);
  }

  /**
   The main result.  Take any interleaving of client creations and interactions that
   the primary accepts, any reports of each interaction, and any order in which they
   are decoded and triggered.  The results reach the primary without an invalid client
   or kind, and list for every client exactly the interactions sent to it, each with the
   outcome of its own reports, if and only if no client beyond the first 256 was
   addressed.
   */
  lemma EndToEnd(ops: seq<Op>, p: Primary, rt: Runtime, reports: seq<seq<Event>>, jobs: seq<Job>)
    requires Plan(ops) == Some(p)
    requires forall i :: 0 <= i < |p.sent| ==> PrepareAccepted(p.sent[i])
    requires PrepareFrom(EMPTY, PlanBytes(p)) == Some(rt)
    requires |reports| == |rt.iacts| && multiset(jobs) == multiset(Fated(rt.iacts, Fates(reports)))
    ensures |reports| == |Sent(ops)|
    ensures forall i :: 0 <= i < |jobs| ==> ResultAccepted(Report(jobs)[i])
    ensures Conserved(ops, reports, CollectFrom(p.clients, NOTHING, ResultBytes(Report(jobs)))) <==> Addressable(ops)
  {
    hide Plan, PrepareFrom, Interactions, AllWrapped, CollectFrom, PutResults, Report, Conserved, PutPrepares, Fated, Iacts;
    hide Fates;
    var fates := Fates(reports);
    PreparedCount(ops, p);
    PlanIsPlanned(ops);
    WrappedIsSmall(ops, p);
    IactsPermute(Fated(rt.iacts, fates), jobs);
    assert Iacts(Fated(rt.iacts, fates)) == rt.iacts;
    SmallPermutes(rt.iacts, Iacts(jobs));
    ResultsAccepted(jobs);
    if Addressable(ops) {
      IsConserved(ops, p, reports, jobs);
    } else {
      NotConserved(ops, reports, p.clients, Report(jobs));
    }
  }

  // ---------- What the primary accepts ----------

  /** The kinds that a plan has sent on a client. */
  ghost function KindsSent(ops: seq<Op>, client: nat): (r: set<Bytes>) {
    if ops == [] then {}
    else
      var op := ops[|ops| - 1];
      KindsSent(ops[..|ops| - 1], client) + if op.Send? && op.client == client then {op.ikind} else {}
  }

  ghost function Elements(s: seq<Bytes>): (r: set<Bytes>) {
    set x | x in s
  }

  /** The interned kinds of each client are those sent on it, and fit their byte. */
  ghost predicate KindsKept(p: Primary, ops: seq<Op>) {
    forall i :: 0 <= i < |p.clients| ==> Elements(p.clients[i].kinds) == KindsSent(ops, i) && |p.clients[i].kinds| <= BYTE
  }

  lemma InternAdds(s: Sender, ikind: Bytes)
    requires Interned(s)
    ensures var (s', k) := Intern(s, ikind);
            && Elements(s'.kinds) == Elements(s.kinds) + {ikind}
            && (ikind in Elements(s.kinds) ==> s' == s && k < |s.kinds|)
            && (ikind !in Elements(s.kinds) ==> |s'.kinds| == |s.kinds| + 1 && k == |s.kinds|)
  {}

  lemma {:induction false} ElementsCount(s: seq<Bytes>)
    requires forall i, j :: 0 <= i < j < |s| ==> s[i] != s[j]
    ensures |Elements(s)| == |s|
  {
    if s == [] {
      assert Elements(s) == {};
    } else {
      var init, last := s[..|s| - 1], s[|s| - 1];
      ElementsCount(init);
      assert s == init + [last];
      assert Elements(s) == Elements(init) + {last};
    }
  }

  lemma InternedCount(s: Sender)
    requires Interned(s)
    ensures |Elements(s.kinds)| == |s.kinds|
  {
    forall i, j | 0 <= i < j < |s.kinds| ensures s.kinds[i] != s.kinds[j] {
      assert s.ikinds[s.kinds[i]] == i && s.ikinds[s.kinds[j]] == j;
    }
    ElementsCount(s.kinds);
  }

  lemma KindsKeptStep(p: Primary, ops: seq<Op>, op: Op)
    requires KindsKept(p, ops) && AllInterned(p.clients) && AfterOp(p, op).Some?
    requires op.Create? ==> KindsSent(ops, |p.clients|) == {}
    ensures KindsKept(AfterOp(p, op).value, ops + [op])
  {
    assert (ops + [op])[..|ops|] == ops;
    if op.Send? {
      InternAdds(p.clients[op.client], op.ikind);
    }
    hide Intern, Interned;
  }

  lemma {:induction false} KindsRun(ops: seq<Op>)
    requires Plan(ops).Some?
    ensures KindsKept(Plan(ops).value, ops)
    ensures forall i: nat :: i >= |Plan(ops).value.clients| ==> KindsSent(ops, i) == {}
  {
    if ops != [] {
      var init, op := ops[..|ops| - 1], ops[|ops| - 1];
      assert ops == init + [op];
      hide Planned, KindsKept, PrepareAccepted, Intern, KindsSent, AfterOp;
      KindsRun(init);
      PlanIsPlanned(init);
      var p := Plan(init).value;
      PlannedInterned(p, init);
      KindsKeptStep(p, init, op);
      forall i: nat | i >= |Plan(ops).value.clients| ensures KindsSent(ops, i) == {} {
        NoKindsStep(p, init, op, i);
      }
    } else {
      hide PrepareAccepted;
    }
  }

  /** An operation sends nothing on a client that does not exist after it. */
  lemma NoKindsStep(p: Primary, ops: seq<Op>, op: Op, i: nat)
    requires AfterOp(p, op).Some? && i >= |AfterOp(p, op).value.clients|
    requires forall k: nat :: k >= |p.clients| ==> KindsSent(ops, k) == {}
    ensures KindsSent(ops + [op], i) == {}
  {
    hide PrepareAccepted, Intern;
    assert (ops + [op])[..|ops|] == ops;
  }

  lemma PlannedInterned(p: Primary, ops: seq<Op>)
    requires Planned(p, ops)
    ensures AllInterned(p.clients) && |p.clients| == |Created(ops)|
  {}

  /** The limits of the primary, told of the operations. */
  ghost predicate Acceptable(ops: seq<Op>, op: Op) {
    match op
    case Create(_, view) =>
      |view| <= 65535 && (forall i :: 0 <= i < |view| ==> |view[i]| <= 255) && |Created(ops)| < WORD
    case Send(client, ikind, _, payload) =>
      client < |Created(ops)| && |KindsSent(ops, client) + {ikind}| <= 256 && |payload| <= 65535
  }

  /** One more client is accepted exactly when its view and its number fit. */
  lemma CreateExactly(p: Primary, op: Op)
    requires op.Create?
    ensures AfterOp(p, op).Some? <==>
            |op.view| <= 65535 && (forall i :: 0 <= i < |op.view| ==> |op.view[i]| <= 255) && |p.clients| < WORD
  {}

  /** One more interaction is accepted exactly when its client exists and the number of its kind and its payload fit. */
  lemma SendExactly(p: Primary, op: Op)
    requires op.Send? && |p.clients| <= WORD
    ensures AfterOp(p, op).Some? <==>
            && op.client < |p.clients| && |op.payload| <= 65535
            && Intern(p.clients[op.client], op.ikind).1 < BYTE
  {
    hide Intern;
  }

  /** The number of a kind fits its byte exactly when there are at most 256 kinds with it. */
  lemma KindFits(s: Sender, ikind: Bytes)
    requires Interned(s) && |s.kinds| <= BYTE
    ensures Intern(s, ikind).1 < BYTE <==> |Elements(s.kinds) + {ikind}| <= BYTE
  {
    InternAdds(s, ikind);
    InternKeeps(s, ikind);
    InternedCount(s);
    InternedCount(Intern(s, ikind).0);
    hide Intern, Interned, Elements;
    if ikind in Elements(s.kinds) {
      assert Elements(s.kinds) + {ikind} == Elements(s.kinds);
    }
  }

  /**
   After an accepted plan, one more operation is accepted exactly when it keeps the
   limits: 65535 addresses of 255 bytes and 2^32 clients, and for an interaction a client
   that was created, 256 different kinds on it and 65535 bytes of payload.
   */
  lemma AcceptedExactly(ops: seq<Op>, op: Op)
    requires Plan(ops).Some?
    ensures Plan(ops + [op]).Some? <==> Acceptable(ops, op)
  {
    assert (ops + [op])[..|ops|] == ops;
    var p := Plan(ops).value;
    assert Plan(ops + [op]) == AfterOp(p, op);
    PlanIsPlanned(ops);
    PlannedInterned(p, ops);
    KindsRun(ops);
    ClientsFit(ops);
    hide Plan, Planned, Created, AfterOp, Intern, Interned, Elements, KindsSent;
    if op.Create? {
      CreateExactly(p, op);
    } else {
      SendExactly(p, op);
      if op.client < |p.clients| {
        KindFits(p.clients[op.client], op.ikind);
      }
    }
  }

  lemma {:induction false} ClientsFit(ops: seq<Op>)
    requires Plan(ops).Some?
    ensures |Plan(ops).value.clients| <= WORD
  {
    if ops != [] {
      ClientsFit(ops[..|ops| - 1]);
      hide Intern;
    }
  }

  // ---------- A client that is lost ----------

  lemma {:induction false} ManyClients(n: nat)
    requires n <= WORD
    ensures var r := Plan(seq(n, _ => Create([], [])));
            r.Some? && r.value.clients == seq(n, _ => Sender([], [], map[]))
  {
    if n > 0 {
      ManyClients(n - 1);
      assert seq(n, _ => Create([], []))[..n - 1] == seq(n - 1, _ => Create([], []));
      assert seq(n - 1, _ => Sender([], [], map[])) + [Sender([], [], map[])] == seq(n, _ => Sender([], [], map[]));
    }
  }

  /** The primary accepts a plan that addresses the 257th client. */
  lemma WideClientAccepted(time: Float)
    ensures exists ops :: Plan(ops).Some? && !Addressable(ops)
  {
    var creates := seq(257, _ => Create([], []));
    var ops := creates + [Send(256, [], time, [])];
    ManyClients(257);
    assert ops[..|ops| - 1] == creates;
    assert ops[257].Send? && ops[257].client == 256;
    assert !Addressable(ops);
    assert Plan(ops).Some?;
  }
}
