/**
 What the primary plans, what a secondary prepares and reports, and what the
 primary collects, over one connection.

 Values and functions here; the objects that carry them are in `Nodes`.
 */
module Protocol {
  import opened Basics
  import opened Outcomes
  import opened Wire

  // ---------- The primary: planning ----------

  /** What the primary keeps about a client: its kind and the interaction kinds it has interned. */
  datatype Sender = Sender(kind: Bytes, kinds: seq<Bytes>, ikinds: map<Bytes, nat>)

  datatype Primary = Primary(clients: seq<Sender>, sent: seq<Prepare>)

  datatype Op =
    | Create(kind: Bytes, view: seq<Bytes>)
    | Send(client: nat, ikind: Bytes, time: Float, payload: Bytes)

  /** The number of a kind, and the client once it knows that kind. */
  function Intern(s: Sender, ikind: Bytes): (r: (Sender, nat)) {
    if ikind in s.ikinds then (s, s.ikinds[ikind])
    else (s.(kinds := s.kinds + [ikind], ikinds := s.ikinds[ikind := |s.kinds|]), |s.kinds|)
  }

  function AfterCreate(p: Primary, kind: Bytes, view: seq<Bytes>): (r: Option<Primary>) {
    var m := Client(view, |p.clients|);
    if !PrepareAccepted(m) then None
    else Some(Primary(p.clients + [Sender(kind, [], map[])], p.sent + [m]))
  }

  function AfterSend(p: Primary, client: nat, ikind: Bytes, time: Float, payload: Bytes): (r: Option<Primary>)
    requires client < |p.clients|
  {
    var (s, k) := Intern(p.clients[client], ikind);
    var m := Interaction(client, k, time, payload);
    if !PrepareAccepted(m) then None
    else Some(Primary(p.clients[client := s], p.sent + [m]))
  }

  /** An operation on the primary; an interaction is sent on a client that was created. */
  function AfterOp(p: Primary, op: Op): (r: Option<Primary>) {
    match op
    case Create(kind, view) => AfterCreate(p, kind, view)
    case Send(client, ikind, time, payload) =>
      if client < |p.clients| then AfterSend(p, client, ikind, time, payload) else None
  }

  /** The primary after a sequence of operations, unless one of them was refused. */
  function Plan(ops: seq<Op>): (r: Option<Primary>) {
    if ops == [] then Some(Primary([], []))
    else
      match Plan(ops[..|ops| - 1])
      case None => None
      case Some(p) => AfterOp(p, ops[|ops| - 1])
  }

  datatype Creation = Creation(kind: Bytes, view: seq<Bytes>)

  /** An interaction as the primary sends it: the client that is to trigger it, its kind, its time and its payload. */
  datatype Sending = Sending(client: int, kind: Bytes, time: Float, payload: Bytes)

  /** The clients of a plan. */
  function Created(ops: seq<Op>): (r: seq<Creation>) {
    if ops == [] then []
    else
      var op := ops[|ops| - 1];
      Created(ops[..|ops| - 1]) + if op.Create? then [Creation(op.kind, op.view)] else []
  }

  /** The interactions of a plan. */
  function Sent(ops: seq<Op>): (r: seq<Sending>) {
    if ops == [] then []
    else
      var op := ops[|ops| - 1];
      Sent(ops[..|ops| - 1]) + if op.Send? then [Sending(op.client, op.ikind, op.time, op.payload)] else []
  }

  ghost predicate Interned(s: Sender) {
    && (forall i :: 0 <= i < |s.kinds| ==> s.kinds[i] in s.ikinds && s.ikinds[s.kinds[i]] == i)
    && (forall k :: k in s.ikinds ==> s.ikinds[k] < |s.kinds| && s.kinds[s.ikinds[k]] == k)
  }

  // ---------- The secondary: preparing ----------

  /** A prepared interaction: its client, the number of its kind, its time and its payload. */
  datatype Iact = Iact(client: int, kind: int, time: Float, payload: Bytes)

  /** The clients by number, each with its view, and the interactions. */
  datatype Runtime = Runtime(clients: map<int, seq<Bytes>>, iacts: seq<Iact>)

  function AfterPrepare(rt: Runtime, m: Prepare): (r: Option<Runtime>)
    requires !m.Done?
  {
    match m
    case Client(view, index) => Some(rt.(clients := rt.clients[index := view]))
    case Interaction(index, kind, time, payload) =>
      if index in rt.clients then Some(rt.(iacts := rt.iacts + [Iact(index, kind, time, payload)])) else None
  }

  /** The prepare loop: reads messages until Done. */
  function PrepareFrom(rt: Runtime, s: Bytes): (r: Option<Runtime>)
    decreases |s|
  {
    match GetPrepare(s)
    case None => None
    case Some((m, s1)) =>
      if m.Done? then Some(rt)
      else
        match AfterPrepare(rt, m)
        case None => None
        case Some(rt1) => PrepareFrom(rt1, s1)
  }

  /** The bytes of a plan: its messages, then Done. */
  function PlanBytes(p: Primary): (r: Bytes)
    requires forall i :: 0 <= i < |p.sent| ==> PrepareAccepted(p.sent[i])
  {
    PutPrepares(p.sent) + [0]
  }

  // ---------- The secondary: running and reporting ----------

  /** A prepared interaction and what has become of it. */
  datatype Job = Job(iact: Iact, fate: Fate)

  function Report(jobs: seq<Job>): (r: seq<Result>)
    ensures |r| == |jobs| && forall i :: 0 <= i < |r| ==> r[i] == ResultOf(jobs[i])
  {
    seq(|jobs|, i requires 0 <= i < |jobs| => ResultOf(jobs[i]))
  }

  function ResultOf(j: Job): (r: Result) {
    var o := OutcomeOf(j.fate);
    ResultInteraction(j.iact.client, j.iact.kind, o.submit, o.commit, o.abort, o.hasError)
  }

  /** A result names its interaction, and its times and error are those of the reports. */
  lemma ResultDescribes(x: Iact, es: seq<Event>)
    ensures var m := ResultOf(Job(x, FateOf(es)));
            && m.index == x.client && m.kind == x.kind
            && Describes(es, Outcome(m.submit, m.commit, m.abort, m.hasError))
  {
    var o := OutcomeBy(es);
    assert OutcomeOf(FateOf(es)) == o;
  }

  // ---------- The primary: collecting ----------

  datatype InteractionResult = InteractionResult(kind: Bytes, outcome: Outcome)
  datatype ClientResult = ClientResult(index: int, kind: Bytes, interactions: seq<InteractionResult>)
  datatype SecondaryResult = SecondaryResult(ids: map<int, nat>, clients: seq<ClientResult>)

  function AddResult(c: SecondaryResult, id: int, kind: Bytes, r: InteractionResult): (c': SecondaryResult)
    requires forall x :: x in c.ids ==> c.ids[x] < |c.clients|
  {
    if id in c.ids then
      var entry := c.clients[c.ids[id]];
      c.(clients := c.clients[c.ids[id] := entry.(interactions := entry.interactions + [r])])
    else
      SecondaryResult(c.ids[id := |c.clients|], c.clients + [ClientResult(id, kind, [r])])
  }

  /** The offsets are those of the clients they name, and each client has its own kind. */
  ghost predicate ValidResult(clients: seq<Sender>, c: SecondaryResult) {
    && (forall x :: x in c.ids ==>
          && c.ids[x] < |c.clients| && 0 <= x < |clients|
          && c.clients[c.ids[x]].index == x && c.clients[c.ids[x]].kind == clients[x].kind)
    && (forall i :: 0 <= i < |c.clients| ==> c.clients[i].index in c.ids && c.ids[c.clients[i].index] == i)
  }

  /** One message of collect; nothing for an index or a kind that is not known. */
  function AfterResult(clients: seq<Sender>, c: SecondaryResult, m: Result): (r: Option<SecondaryResult>)
    requires m.ResultInteraction? && m.index >= 0 && m.kind >= 0
    requires forall x :: x in c.ids ==> c.ids[x] < |c.clients|
  {
    if m.index >= |clients| || m.kind >= |clients[m.index].kinds| then None
    else Some(AddResult(c, m.index, clients[m.index].kind,
                        InteractionResult(clients[m.index].kinds[m.kind],
                                          Outcome(m.submit, m.commit, m.abort, m.hasError))))
  }

  lemma ReadResultInRange(s: Bytes)
    ensures GetResult(s).Some? && GetResult(s).value.0.ResultInteraction? ==>
              GetResult(s).value.0.index >= 0 && GetResult(s).value.0.kind >= 0
  {}

  /** The collect loop: reads results until Done. */
  function CollectFrom(clients: seq<Sender>, c: SecondaryResult, s: Bytes): (r: Option<SecondaryResult>)
    requires forall x :: x in c.ids ==> c.ids[x] < |c.clients|
    decreases |s|
  {
    match GetResult(s)
    case None => None
    case Some((m, s1)) =>
      if m.ResultDone? then Some(c)
      else
        ReadResultInRange(s);
        match AfterResult(clients, c, m)
        case None => None
        case Some(c1) => CollectFrom(clients, c1, s1)
  }

  /** What a result lists for a client. */
  function ResultsOf(c: SecondaryResult, id: int): (r: seq<InteractionResult>)
    requires forall x :: x in c.ids ==> c.ids[x] < |c.clients|
  {
    if id in c.ids then c.clients[c.ids[id]].interactions else []
  }
}
