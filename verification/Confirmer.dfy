/**
 The Algorand confirmer that polls blocks.

 Interactions register under a lock and wait; a poller fetches the blocks round by
 round, and reports what it found under the same lock.  An interaction is known by
 the uid that its transaction carries on chain.  The functions on `Table` say what
 each critical section does; `Book` is the object they belong to.
 */
module Confirmer {
  import opened Basics

  /** The maps of the confirmer; there are no pendings once they were flushed. */
  datatype Table = Table(pendings: Option<set<nat>>, committed: set<nat>)

  datatype Confirmation = Rejected | Early | Waiting

  /** The locked part of confirm. */
  function AfterConfirm(t: Table, uid: nat): (r: (Table, Confirmation)) {
    if t.pendings.None? then (t, Rejected)
    else if uid in t.committed then (t.(committed := t.committed - {uid}), Early)
    else (t.(pendings := Some(t.pendings.value + {uid})), Waiting)
  }

  /** The uids that wait; none once they were flushed. */
  function Waiters(pendings: Option<set<nat>>): (r: set<nat>) {
    if pendings.Some? then pendings.value else {}
  }

  /** The locked part of reportTransactions: the table and the uids that were waiting. */
  function AfterReport(t: Table, uids: seq<nat>): (r: (Table, seq<nat>))
    ensures r.0.pendings.Some? <==> t.pendings.Some?
  {
    if uids == [] then (t, [])
    else
      var (t1, matched) := AfterReport(t, uids[..|uids| - 1]);
      var uid := uids[|uids| - 1];
      if uid in Waiters(t1.pendings) then
        (t1.(pendings := Some(t1.pendings.value - {uid})), matched + [uid])
      else (t1.(committed := t1.committed + {uid}), matched)
  }

  /** A flushed book has no pendings, as a map that is nil: nothing is found in it. */
  class Book {
    var pendings: Option<set<nat>>
    var committed: set<nat>

    function View(): (t: Table)
      reads this
    {
      Table(pendings, committed)
    }

    constructor ()
      ensures View() == Table(Some({}), {})
    {
      pendings, committed := Some({}), {};
    }

    method Confirm(uid: nat) returns (c: Confirmation)
      modifies this
      ensures (View(), c) == AfterConfirm(old(View()), uid)
    {
      if pendings.None? {
        return Rejected;
      } else if uid in committed {
        committed := committed - {uid};
        return Early;
      } else {
        pendings := Some(pendings.value + {uid});
        return Waiting;
      }
    }

    method ReportTransactions(uids: seq<nat>) returns (matched: seq<nat>)
      modifies this
      ensures (View(), matched) == AfterReport(old(View()), uids)
    {
      matched := [];
      assert uids[..0] == [];
      for i := 0 to |uids|
        invariant (View(), matched) == AfterReport(old(View()), uids[..i])
      {
        assert uids[..i + 1][..i] == uids[..i];
        if pendings.None? || uids[i] !in pendings.value {
          committed := committed + {uids[i]};
          continue;
        }
        pendings := Some(pendings.value - {uids[i]});
        matched := matched + [uids[i]];
      }
      assert uids[..|uids|] == uids;
    }

    /** Takes every waiting interaction off the book, in any order. */
    method FlushPendings() returns (aborted: seq<nat>)
      modifies this
      ensures View() == old(View()).(pendings := None)
      ensures Enumerates(aborted, Waiters(old(pendings)))
    {
      aborted := [];
      var waiting := Waiters(pendings);
      var left := waiting;
      while left != {}
        invariant left <= waiting && committed == old(committed)
        invariant Enumerates(aborted, waiting - left)
        decreases left
      {
        ghost var some := Member(left);
        var uid :| uid in left;
        EnumeratesMore(aborted, waiting - left, uid);
        aborted := aborted + [uid];
        assert waiting - left + {uid} == waiting - (left - {uid});
        left := left - {uid};
      }
      assert waiting - left == waiting;
      pendings := None;
    }
  }

  ghost predicate Distinct(s: seq<nat>) {
    forall i, j :: 0 <= i < j < |s| ==> s[i] != s[j]
  }

  /** The elements of a sequence. */
  function Elements(s: seq<nat>): (r: set<nat>) {
    set x | x in s
  }

  ghost predicate Enumerates(s: seq<nat>, xs: set<nat>) {
    Distinct(s) && Elements(s) == xs
  }

  lemma EnumeratesMore(s: seq<nat>, xs: set<nat>, x: nat)
    requires Enumerates(s, xs) && x !in xs
    ensures Enumerates(s + [x], xs + {x})
  {
    assert forall i :: 0 <= i < |s| ==> s[i] in Elements(s);
  }

  lemma ElementsAppend(s: seq<nat>, t: seq<nat>)
    ensures Elements(s + t) == Elements(s) + Elements(t)
  {}

  /** On distinct uids, reporting moves the waiting ones out and remembers the others. */
  lemma {:induction false} ReportMoves(t: Table, uids: seq<nat>)
    requires Distinct(uids)
    ensures var (t1, matched) := AfterReport(t, uids);
            var waiting := Waiters(t.pendings);
            && (t1.pendings.Some? <==> t.pendings.Some?)
            && Waiters(t1.pendings) == waiting - Elements(uids)
            && t1.committed == t.committed + (Elements(uids) - waiting)
            && Enumerates(matched, Elements(uids) * waiting)
  {
    if uids == [] {
      assert Elements(uids) == {};
    } else {
      var waiting := Waiters(t.pendings);
      var init, uid := uids[..|uids| - 1], uids[|uids| - 1];
      assert uids == init + [uid];
      ReportMoves(t, init);
      ElementsAppend(init, [uid]);
      assert Elements([uid]) == {uid};
      assert uid !in Elements(init);
      if uid in waiting {
        EnumeratesMore(AfterReport(t, init).1, Elements(init) * waiting, uid);
        assert Elements(uids) * waiting == Elements(init) * waiting + {uid};
      } else {
        assert Elements(uids) * waiting == Elements(init) * waiting;
      }
    }
  }

  /** When nothing waits, reporting remembers every uid. */
  lemma {:induction false} ReportRemembers(t: Table, uids: seq<nat>)
    requires Waiters(t.pendings) == {}
    ensures AfterReport(t, uids) == (t.(committed := t.committed + Elements(uids)), [])
  {
    if uids == [] {
      assert t.committed + Elements(uids) == t.committed;
    } else {
      var init, uid := uids[..|uids| - 1], uids[|uids| - 1];
      assert uids == init + [uid];
      ReportRemembers(t, init);
      ElementsAppend(init, [uid]);
      assert Elements([uid]) == {uid};
      assert t.committed + Elements(init) + {uid} == t.committed + Elements(uids);
    }
  }
}
