/**
 What becomes of an interaction at a secondary: its reports and the end of its trigger,
 and the outcome that is sent to the primary for them.

 The runtime keeps the time of the first report of each sort; the reference speaks of the
 list of all reports in the order in which they were made.
 */
module Outcomes {
  import opened Basics
  import opened Wire

  datatype Outcome = Outcome(submit: Float, commit: Float, abort: Float, hasError: bool)

  /** The times of the reports of an interaction, and whether its trigger returned an error. */
  datatype Fate = Fate(submit: Option<Float>, commit: Option<Float>, abort: Option<Float>, failed: Option<bool>)

  const NOT_YET: Fate := Fate(None, None, None, None)

  // ---------- Never ----------

  /** The bytes of -1, which stand for a time that was never reported. */
  const NEVER: Float := [0, 0, 0, 0, 0, 0, 0xf0, 0xbf]

  ghost function Power(k: int): (r: real)
    decreases if k < 0 then -k else k
  {
    if k == 0 then 1.0 else if k > 0 then 2.0 * Power(k - 1) else Power(k + 1) / 2.0
  }

  /** The number that a normal double-precision value stands for, sign, exponent and fraction. */
  ghost function Double(b: Float): (r: real) {
    var high: int, low: int := b[7], b[6];
    var exponent := high % 128 * 16 + low / 16;
    var fraction := Value(b[..6]) + 0x1_0000_0000_0000 * (low % 16);
    (if high >= 128 then -1.0 else 1.0) * Power(exponent - 1023) *
    (1.0 + fraction as real / 0x10_0000_0000_0000 as real)
  }

  lemma {:induction false} ValueOfZeros(b: Bytes)
    requires forall i :: 0 <= i < |b| ==> b[i] == 0
    ensures Value(b) == 0
  {
    if b != [] {
      ValueOfZeros(b[1..]);
    }
  }

  lemma NeverIsMinusOne()
    ensures Double(NEVER) == -1.0
  {
    ValueOfZeros(NEVER[..6]);
    assert Power(0) == 1.0;
  }

  // ---------- What the runtime keeps ----------

  datatype Event = Submitted(now: Float) | Committed(now: Float) | Aborted(now: Float) | Returned(error: bool)

  /** A report keeps the time of the first of its sort. */
  function AfterEvent(f: Fate, e: Event): (r: Fate) {
    match e
    case Submitted(now) => if f.submit.Some? then f else f.(submit := Some(now))
    case Committed(now) => if f.commit.Some? then f else f.(commit := Some(now))
    case Aborted(now) => if f.abort.Some? then f else f.(abort := Some(now))
    case Returned(error) => f.(failed := Some(error))
  }

  function FateOf(es: seq<Event>): (f: Fate) {
    if es == [] then NOT_YET else AfterEvent(FateOf(es[..|es| - 1]), es[|es| - 1])
  }

  function TimeOf(t: Option<Float>): (r: Float) {
    if t.Some? then t.value else NEVER
  }

  function OutcomeOf(f: Fate): (o: Outcome) {
    Outcome(TimeOf(f.submit), TimeOf(f.commit), TimeOf(f.abort), f.failed == Some(true))
  }

  // ---------- The reference ----------

  datatype Sort = Submit | Commit | Abort

  predicate IsA(e: Event, sort: Sort) {
    match sort
    case Submit => e.Submitted?
    case Commit => e.Committed?
    case Abort => e.Aborted?
  }

  /** t is the time of the first report of a sort, or -1 when there is none. */
  ghost predicate FirstTime(es: seq<Event>, sort: Sort, t: Float) {
    || (t == NEVER && forall k :: 0 <= k < |es| ==> !IsA(es[k], sort))
    || (exists k :: 0 <= k < |es| && IsA(es[k], sort) && es[k].now == t && forall j :: 0 <= j < k ==> !IsA(es[j], sort))
  }

  /** The trigger ended in an error, the last time it ended. */
  ghost predicate EndsInError(es: seq<Event>) {
    exists k :: 0 <= k < |es| && es[k] == Returned(true) && forall j :: k < j < |es| ==> !es[j].Returned?
  }

  ghost predicate Describes(es: seq<Event>, o: Outcome) {
    && FirstTime(es, Submit, o.submit) && FirstTime(es, Commit, o.commit) && FirstTime(es, Abort, o.abort)
    && (o.hasError <==> EndsInError(es))
  }

  lemma FirstTimeUnique(es: seq<Event>, sort: Sort, t: Float, u: Float)
    requires FirstTime(es, sort, t) && FirstTime(es, sort, u)
    ensures t == u
  {}

  /** The reports of an interaction determine its outcome. */
  lemma DescribesUnique(es: seq<Event>, o: Outcome, p: Outcome)
    requires Describes(es, o) && Describes(es, p)
    ensures o == p
  {
    FirstTimeUnique(es, Submit, o.submit, p.submit);
    FirstTimeUnique(es, Commit, o.commit, p.commit);
    FirstTimeUnique(es, Abort, o.abort, p.abort);
  }

  // ---------- The runtime keeps the reference ----------

  function Kept(f: Fate, sort: Sort): (t: Option<Float>) {
    match sort
    case Submit => f.submit
    case Commit => f.commit
    case Abort => f.abort
  }

  ghost predicate Missing(es: seq<Event>, sort: Sort) {
    forall k :: 0 <= k < |es| ==> !IsA(es[k], sort)
  }

  /** An event keeps what was kept, unless it is the first of its sort. */
  lemma KeptMore(f: Fate, e: Event, sort: Sort)
    ensures Kept(AfterEvent(f, e), sort) ==
            if Kept(f, sort).None? && IsA(e, sort) then Some(e.now) else Kept(f, sort)
  {}

  lemma MissingMore(es: seq<Event>, e: Event, sort: Sort)
    ensures Missing(es + [e], sort) <==> Missing(es, sort) && !IsA(e, sort)
  {
    var all := es + [e];
    assert all[|es|] == e;
    assert forall k :: 0 <= k < |es| ==> all[k] == es[k];
  }

  /** The first report of a sort stays the first. */
  lemma FirstTimeStays(es: seq<Event>, e: Event, sort: Sort, t: Float)
    requires FirstTime(es, sort, t) && !Missing(es, sort)
    ensures FirstTime(es + [e], sort, t)
  {
    var all := es + [e];
    var k :| 0 <= k < |es| && IsA(es[k], sort) && es[k].now == t && forall j :: 0 <= j < k ==> !IsA(es[j], sort);
    assert all[k] == es[k] && forall j :: 0 <= j < k ==> all[j] == es[j];
  }

  lemma FirstTimeStarts(es: seq<Event>, e: Event, sort: Sort)
    requires Missing(es, sort) && IsA(e, sort)
    ensures FirstTime(es + [e], sort, e.now)
  {
    var all := es + [e];
    assert all[|es|] == e && forall j :: 0 <= j < |es| ==> all[j] == es[j];
  }

  lemma {:induction false} KeptIsFirst(es: seq<Event>, sort: Sort)
    ensures FirstTime(es, sort, TimeOf(Kept(FateOf(es), sort)))
    ensures Kept(FateOf(es), sort).None? <==> Missing(es, sort)
  {
    if es != [] {
      var before, e := es[..|es| - 1], es[|es| - 1];
      KeptIsFirst(before, sort);
      assert es == before + [e];
      KeptMore(FateOf(before), e, sort);
      MissingMore(before, e, sort);
      hide Kept, AfterEvent, IsA;
      if !Missing(before, sort) {
        FirstTimeStays(before, e, sort, TimeOf(Kept(FateOf(before), sort)));
      } else if IsA(e, sort) {
        FirstTimeStarts(before, e, sort);
      }
    }
  }

  lemma {:induction false} FailedIsLast(es: seq<Event>)
    ensures FateOf(es).failed == Some(true) <==> EndsInError(es)
  {
    if es != [] {
      var before, e := es[..|es| - 1], es[|es| - 1];
      FailedIsLast(before);
      assert es == before + [e];
      if e.Returned? {
        assert EndsInError(es) <==> e == Returned(true);
      } else {
        EndsInErrorKept(before, e);
      }
    }
  }

  lemma EndsInErrorKept(es: seq<Event>, e: Event)
    requires !e.Returned?
    ensures EndsInError(es + [e]) <==> EndsInError(es)
  {
    var all := es + [e];
    if EndsInError(es) {
      var k :| 0 <= k < |es| && es[k] == Returned(true) && forall j :: k < j < |es| ==> !es[j].Returned?;
      assert all[k] == Returned(true);
    }
    if EndsInError(all) {
      var k :| 0 <= k < |all| && all[k] == Returned(true) && forall j :: k < j < |all| ==> !all[j].Returned?;
      assert es[k] == Returned(true);
      assert forall j :: k < j < |es| ==> es[j] == all[j];
    }
  }

  /** The outcome of some reports. */
  function OutcomeBy(es: seq<Event>): (o: Outcome)
    ensures Describes(es, o)
  {
    KeptIsFirst(es, Submit);
    KeptIsFirst(es, Commit);
    KeptIsFirst(es, Abort);
    FailedIsLast(es);
    OutcomeOf(FateOf(es))
  }

  /** Everything that can be kept comes from some reports. */
  lemma EventsExist(f: Fate) returns (es: seq<Event>)
    ensures FateOf(es) == f
  {
    var a := if f.submit.Some? then [Submitted(f.submit.value)] else [];
    var b := if f.commit.Some? then a + [Committed(f.commit.value)] else a;
    var c := if f.abort.Some? then b + [Aborted(f.abort.value)] else b;
    es := if f.failed.Some? then c + [Returned(f.failed.value)] else c;
    FateMore([], Submitted(TimeOf(f.submit)));
    FateMore(a, Committed(TimeOf(f.commit)));
    FateMore(b, Aborted(TimeOf(f.abort)));
    FateMore(c, Returned(f.failed == Some(true)));
  }

  lemma FateMore(es: seq<Event>, e: Event)
    ensures FateOf(es + [e]) == AfterEvent(FateOf(es), e)
  {
    assert (es + [e])[..|es|] == es;
  }
}
