/**
 The workload of a benchmark: for each secondary, thread and interval, the
 transactions to send, as opaque bytes.
 */
module Workload {
  import opened Wire

  type Interval = seq<Bytes>
  type Thread = seq<Interval>
  type Secondary = seq<Thread>

  /** The transactions of one interval; none when the workload does not reach that far. */
  function Cell(w: seq<Secondary>, s: nat, t: nat, i: nat): (r: Interval) {
    if s < |w| && t < |w[s]| && i < |w[s][t]| then w[s][t][i] else []
  }

  /** No cell but one differs. */
  ghost predicate OnlyCell(w: seq<Secondary>, w': seq<Secondary>, s: nat, t: nat, i: nat) {
    forall s': nat, t': nat, i': nat :: (s', t', i') != (s, t, i) ==> Cell(w', s', t', i') == Cell(w, s', t', i')
  }

  /** A list of lists, made long enough to have the given index. */
  function Grown<T>(xs: seq<seq<T>>, index: nat): (r: seq<seq<T>>)
    ensures |r| == if |xs| <= index then index + 1 else |xs|
    ensures forall k :: 0 <= k < |r| ==> r[k] == if k < |xs| then xs[k] else []
  {
    if index < |xs| then xs else xs + seq(index + 1 - |xs|, _ => [])
  }

  method Grow<T>(xs: seq<seq<T>>, index: nat) returns (r: seq<seq<T>>)
    ensures r == Grown(xs, index)
  {
    r := xs;
    while |r| <= index
      invariant |xs| <= |r| && (|r| <= index + 1 || r == xs)
      invariant forall k :: 0 <= k < |r| ==> r[k] == if k < |xs| then xs[k] else []
      decreases index + 1 - |r|
    {
      r := r + [[]];
    }
  }

  class Builder {
    var cells: seq<Secondary>

    constructor ()
      ensures cells == []
    {
      cells := [];
    }

    /** Appends to one cell, growing the lists on the way, and changes no other cell. */
    method Add(s: nat, t: nat, i: nat, tx: Bytes)
      modifies this
      ensures Cell(cells, s, t, i) == old(Cell(cells, s, t, i)) + [tx]
      ensures OnlyCell(old(cells), cells, s, t, i)
    {
      var secondaries := Grow(cells, s);
      var threads := Grow(secondaries[s], t);
      var intervals := Grow(threads[t], i);
      cells := secondaries[s := threads[t := intervals[i := intervals[i] + [tx]]]];
    }

    /** The plain nested lists, copied element by element. */
    method BuildFlat() returns (r: seq<Secondary>)
      ensures r == cells
    {
      r := [];
      for s := 0 to |cells|
        invariant r == cells[..s]
      {
        var secondary: Secondary := [];
        for t := 0 to |cells[s]|
          invariant secondary == cells[s][..t]
        {
          var thread: Thread := [];
          for i := 0 to |cells[s][t]|
            invariant thread == cells[s][t][..i]
          {
            var interval: Interval := [];
            for k := 0 to |cells[s][t][i]|
              invariant interval == cells[s][t][i][..k]
            {
              interval := interval + [cells[s][t][i][k]];
            }
            assert interval == cells[s][t][i];
            thread := thread + [interval];
          }
          assert thread == cells[s][t];
          secondary := secondary + [thread];
        }
        assert secondary == cells[s];
        r := r + [secondary];
      }
    }
  }
}
