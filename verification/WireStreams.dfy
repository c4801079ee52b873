/**
 Reading and writing messages on byte streams, proved against the byte formats.

 Every encoder checks the whole message before its first write, so a message it
 refuses leaves the stream as it was.
 */
module WireStreams {
  import opened Basics
  import opened Wire

  /** What was read, and the bytes left, agree with a format. */
  ghost predicate Agrees<T>(read: Option<T>, rest: Bytes, format: Parsed<T>) {
    && (read.Some? <==> format.Some?)
    && (read.Some? ==> format.value == (read.value, rest))
  }

  class Reader {
    var rest: Bytes

    constructor (bytes: Bytes)
      ensures rest == bytes
    {
      rest := bytes;
    }

    method ReadFull(n: nat) returns (r: Option<Bytes>)
      modifies this
      ensures Agrees(r, rest, Read(n, old(rest)))
    {
      if |rest| < n {
        rest := [];
        return None;
      }
      r := Some(rest[..n]);
      rest := rest[n..];
    }

    method ReadString() returns (r: Option<Bytes>)
      modifies this
      ensures Agrees(r, rest, GetString(old(rest)))
    {
      var n := ReadFull(1);
      if n.None? {
        return None;
      }
      r := ReadFull(n.value[0]);
    }

    method ReadStrings(n: nat) returns (r: Option<seq<Bytes>>)
      modifies this
      ensures Agrees(r, rest, GetStrings(n, old(rest)))
    {
      hide GetString;
      var xs: seq<Bytes> := [];
      for i := 0 to n
        invariant GetStrings(i, old(rest)) == Some((xs, rest))
      {
        var x := ReadString();
        if x.None? {
          StopsForever(i + 1, n, old(rest));
          return None;
        }
        xs := xs + [x.value];
      }
      return Some(xs);
    }

    method ReadClient() returns (m: Option<Prepare>)
      modifies this
      ensures Agrees(m, rest, GetClient(old(rest)))
    {
      hide GetStrings, Read, GetHalf, GetWord;
      var n := ReadFull(2);
      if n.None? {
        return None;
      }
      var view := ReadStrings(GetHalf(n.value));
      if view.None? {
        return None;
      }
      var index := ReadFull(4);
      if index.None? {
        return None;
      }
      return Some(Client(view.value, GetWord(index.value)));
    }

    method ReadInteraction() returns (m: Option<Prepare>)
      modifies this
      ensures Agrees(m, rest, GetInteraction(old(rest)))
    {
      hide Read, GetHalf, GetWord;
      var index := ReadFull(4);
      if index.None? {
        return None;
      }
      var kind := ReadFull(1);
      if kind.None? {
        return None;
      }
      var time := ReadFull(8);
      if time.None? {
        return None;
      }
      var n := ReadFull(2);
      if n.None? {
        return None;
      }
      var payload := ReadFull(GetHalf(n.value));
      if payload.None? {
        return None;
      }
      return Some(Interaction(GetWord(index.value) % BYTE, kind.value[0], time.value, payload.value));
    }

    method ReadPrepare() returns (m: Option<Prepare>)
      modifies this
      ensures Agrees(m, rest, GetPrepare(old(rest)))
    {
      hide GetClient, GetInteraction;
      var t := ReadFull(1);
      if t.None? {
        return None;
      }
      if t.value[0] == 0 {
        return Some(Done);
      } else if t.value[0] == 1 {
        m := ReadClient();
      } else if t.value[0] == 2 {
        m := ReadInteraction();
      } else {
        return None;
      }
    }

    method ReadResultInteraction() returns (m: Option<Result>)
      modifies this
      ensures Agrees(m, rest, GetResultInteraction(old(rest)))
    {
      hide Read, GetWord;
      var index := ReadFull(4);
      if index.None? {
        return None;
      }
      var kind := ReadFull(1);
      if kind.None? {
        return None;
      }
      var submit := ReadFull(8);
      if submit.None? {
        return None;
      }
      var commit := ReadFull(8);
      if commit.None? {
        return None;
      }
      var abort := ReadFull(8);
      if abort.None? {
        return None;
      }
      var err := ReadFull(1);
      if err.None? {
        return None;
      }
      return Some(ResultInteraction(
        GetWord(index.value), kind.value[0], submit.value, commit.value, abort.value, err.value[0] == 1));
    }

    method ReadResult() returns (m: Option<Result>)
      modifies this
      ensures Agrees(m, rest, GetResult(old(rest)))
    {
      hide GetResultInteraction;
      var t := ReadFull(1);
      if t.None? {
        return None;
      }
      if t.value[0] == 0 {
        return Some(ResultDone);
      } else if t.value[0] == 1 {
        m := ReadResultInteraction();
      } else {
        return None;
      }
    }

    method ReadEntries(n: nat) returns (r: Option<map<Bytes, Bytes>>)
      modifies this
      ensures Agrees(r, rest, GetEntries(n, old(rest)))
    {
      hide Read;
      var chain: map<Bytes, Bytes> := map[];
      for i := 0 to n
        invariant GetEntries(i, old(rest)) == Some((chain, rest))
      {
        var lengths := ReadFull(2);
        if lengths.None? {
          EntriesStopForever(i + 1, n, old(rest));
          return None;
        }
        var key := ReadFull(lengths.value[0]);
        if key.None? {
          EntriesStopForever(i + 1, n, old(rest));
          return None;
        }
        var value := ReadFull(lengths.value[1]);
        if value.None? {
          EntriesStopForever(i + 1, n, old(rest));
          return None;
        }
        chain := chain[key.value := value.value];
      }
      return Some(chain);
    }

    method ReadParameters() returns (p: Option<PrimaryParameters>)
      modifies this
      ensures Agrees(p, rest, GetParameters(old(rest)))
    {
      hide GetString, GetEntries, Read;
      var sysname := ReadString();
      if sysname.None? {
        return None;
      }
      var n := ReadFull(1);
      if n.None? {
        return None;
      }
      var chain := ReadEntries(n.value[0]);
      if chain.None? {
        return None;
      }
      var maxDelay := ReadFull(8);
      if maxDelay.None? {
        return None;
      }
      var maxSkew := ReadFull(8);
      if maxSkew.None? {
        return None;
      }
      return Some(PrimaryParameters(sysname.value, chain.value, maxDelay.value, maxSkew.value));
    }
  }

  lemma {:induction false} StopsForever(i: nat, n: nat, s: Bytes)
    requires i <= n && GetStrings(i, s).None?
    ensures GetStrings(n, s).None?
  {
    if i < n {
      StopsForever(i, n - 1, s);
    }
  }

  lemma {:induction false} EntriesStopForever(i: nat, n: nat, s: Bytes)
    requires i <= n && GetEntries(i, s).None?
    ensures GetEntries(n, s).None?
  {
    if i < n {
      EntriesStopForever(i, n - 1, s);
    }
  }

  /** The bytes of a message so far are kept apart from those of the messages before it. */
  class Writer {
    var out: Bytes
    ghost var before: Bytes
    ghost var message: Bytes

    ghost predicate Valid()
      reads this
    {
      out == before + message
    }

    constructor ()
      ensures Valid() && out == []
    {
      out, before, message := [], [], [];
    }

    ghost method Begin()
      modifies `before, `message
      ensures Valid() && before == out && message == []
    {
      before, message := out, [];
    }

    method Write(bytes: Bytes)
      requires Valid()
      modifies this
      ensures Valid() && before == old(before) && message == old(message) + bytes
    {
      out, message := out + bytes, message + bytes;
    }

    method WriteString(x: Bytes)
      requires Valid() && |x| < BYTE
      modifies this
      ensures Valid() && before == old(before) && message == old(message) + PutString(x)
    {
      Write([|x|]);
      Write(x);
    }

    method WriteStrings(xs: seq<Bytes>)
      requires Valid() && AllShort(xs)
      modifies this
      ensures Valid() && before == old(before) && message == old(message) + PutStrings(xs)
    {
      hide PutString;
      assert xs[..0] == [];
      for i := 0 to |xs|
        invariant Valid() && before == old(before)
        invariant AllShort(xs[..i]) && message == old(message) + PutStrings(xs[..i])
      {
        ghost var sofar := PutStrings(xs[..i]);
        WriteString(xs[i]);
        StringWritten(xs, i);
        assert (old(message) + sofar) + PutString(xs[i]) == old(message) + (sofar + PutString(xs[i]));
      }
      assert xs[..|xs|] == xs;
    }

    method WriteClient(view: seq<Bytes>, index: int) returns (ok: bool)
      requires Valid() && message == []
      modifies this
      ensures Valid() && before == old(before)
      ensures ok <==> PrepareAccepted(Client(view, index))
      ensures message == if ok then PutPrepare(Client(view, index)).value else []
    {
      hide PutHalf, PutWord, PutStrings;
      if |view| > 65535 {
        return false;
      }
      for i := 0 to |view|
        invariant forall k :: 0 <= k < i ==> |view[k]| < BYTE
      {
        if |view[i]| > 255 {
          return false;
        }
      }
      if index >= WORD {
        return false;
      }
      Write([1]);
      assert message == [1];
      Write(PutHalf(|view|));
      WriteStrings(view);
      Write(PutWord(index));
      return true;
    }

    method WritePrepare(m: Prepare) returns (ok: bool)
      requires Valid()
      modifies this
      ensures Valid() && before == old(out)
      ensures ok <==> PrepareAccepted(m)
      ensures message == if ok then PutPrepare(m).value else []
    {
      hide PutHalf, PutWord, PutStrings, Valid;
      Begin();
      match m
      case Done =>
        Write([0]);
        assert message == [0];
        ok := true;
      case Client(view, index) =>
        ok := WriteClient(view, index);
      case Interaction(index, kind, time, payload) =>
        if index >= WORD || kind > 255 || |payload| > 65535 {
          return false;
        }
        Write([2]);
        assert message == [2];
        Write(PutWord(index));
        Write([kind % 256]);
        Write(time);
        Write(PutHalf(|payload|));
        Write(payload);
        ok := true;
    }

    method WriteResult(m: Result) returns (ok: bool)
      requires Valid()
      modifies this
      ensures Valid() && before == old(out)
      ensures ok <==> ResultAccepted(m)
      ensures message == if ok then PutResult(m).value else []
    {
      hide PutWord, Valid;
      Begin();
      match m
      case ResultDone =>
        Write([0]);
        assert message == [0];
        ok := true;
      case ResultInteraction(index, kind, submit, commit, abort, hasError) =>
        if index >= WORD || kind > 255 {
          return false;
        }
        Write([1]);
        assert message == [1];
        Write(PutWord(index));
        Write([kind % 256]);
        Write(submit);
        Write(commit);
        Write(abort);
        Write([if hasError then 1 else 0]);
        ok := true;
    }

    method WriteEntry(k: Bytes, v: Bytes)
      requires Valid() && |k| < BYTE && |v| < BYTE
      modifies this
      ensures Valid() && before == old(before) && message == old(message) + PutEntry(k, v)
    {
      Write([|k|, |v|]);
      Write(k);
      Write(v);
      assert old(message) + [|k|, |v|] + k + v == old(message) + ([|k|, |v|] + k + v);
    }

    /** Writes the entries of a map in an order of its own choosing. */
    method WriteEntries(m: map<Bytes, Bytes>) returns (ghost order: seq<Bytes>)
      requires Valid()
      requires forall k :: k in m ==> |k| < BYTE && |m[k]| < BYTE
      modifies this
      ensures Valid() && before == old(before)
      ensures OrderOf(order, m)
      ensures message == old(message) + PutEntries(order, m)
    {
      hide PutEntry, Valid, PutEntries, Visiting;
      order := [];
      var left := m.Keys;
      VisitingStarts(m);
      while left != {}
        invariant Valid() && before == old(before)
        invariant left <= m.Keys && Visiting(order, left, m)
        invariant Fits(order, m) && message == old(message) + PutEntries(order, m)
        decreases left
      {
        ghost var some := Member(left);
        var key :| key in left;
        ghost var sofar := PutEntries(order, m);
        WriteEntry(key, m[key]);
        VisitingStep(order, left, m, key);
        assert (old(message) + sofar) + PutEntry(key, m[key]) == old(message) + (sofar + PutEntry(key, m[key]));
        order := order + [key];
        left := left - {key};
      }
      VisitingEnds(order, m);
    }

    /** Whether every entry fits. */
    method EntriesFit(m: map<Bytes, Bytes>) returns (ok: bool)
      ensures ok <==> forall k :: k in m ==> |k| < BYTE && |m[k]| < BYTE
    {
      var left := m.Keys;
      while left != {}
        invariant left <= m.Keys
        invariant forall k :: k in m && k !in left ==> |k| < BYTE && |m[k]| < BYTE
        decreases left
      {
        ghost var some := Member(left);
        var key :| key in left;
        if |key| > 255 || |m[key]| > 255 {
          return false;
        }
        left := left - {key};
      }
      return true;
    }

    method WriteParameters(p: PrimaryParameters) returns (ok: bool, ghost order: seq<Bytes>)
      requires Valid()
      modifies this
      ensures Valid() && before == old(out)
      ensures ok <==> ParametersAccepted(p)
      ensures ok ==> OrderOf(order, p.chain) && |order| == |p.chain| && message == PutParameters(p, order)
      ensures !ok ==> message == []
    {
      hide PutEntries, PutString, Valid;
      order := [];
      Begin();
      if |p.sysname| > 255 || |p.chain| > 255 {
        return false, [];
      }
      ok := EntriesFit(p.chain);
      if !ok {
        return false, [];
      }
      WriteString(p.sysname);
      assert message == PutString(p.sysname);
      Write([|p.chain|]);
      order := WriteEntries(p.chain);
      OrderLength(order, p.chain);
      Write(p.maxDelay);
      Write(p.maxSkew);
    }
  }

  /** The keys visited so far, each once, and those left. */
  ghost predicate Visiting(order: seq<Bytes>, left: set<Bytes>, m: map<Bytes, Bytes>) {
    && (forall i :: 0 <= i < |order| ==> order[i] in m && order[i] !in left)
    && (forall i, j :: 0 <= i < j < |order| ==> order[i] != order[j])
    && (forall k :: k in m ==> k in order || k in left)
  }

  ghost predicate Fits(order: seq<Bytes>, m: map<Bytes, Bytes>) {
    forall i :: 0 <= i < |order| ==> order[i] in m && |order[i]| < BYTE && |m[order[i]]| < BYTE
  }

  lemma VisitingStarts(m: map<Bytes, Bytes>)
    ensures Visiting([], m.Keys, m) && PutEntries([], m) == []
  {}

  lemma VisitingStep(order: seq<Bytes>, left: set<Bytes>, m: map<Bytes, Bytes>, key: Bytes)
    requires Visiting(order, left, m) && key in left && key in m
    requires Fits(order, m) && |key| < BYTE && |m[key]| < BYTE
    ensures Visiting(order + [key], left - {key}, m) && Fits(order + [key], m)
    ensures PutEntries(order + [key], m) == PutEntries(order, m) + PutEntry(key, m[key])
  {
    hide PutEntry;
    assert (order + [key])[..|order|] == order;
    forall k | k in m ensures k in order + [key] || k in left - {key} {
      assert k in order || k in left;
    }
  }

  lemma VisitingEnds(order: seq<Bytes>, m: map<Bytes, Bytes>)
    requires Visiting(order, {}, m)
    ensures OrderOf(order, m)
  {}

  lemma StringWritten(view: seq<Bytes>, i: nat)
    requires i < |view| && AllShort(view)
    ensures AllShort(view[..i]) && AllShort(view[..i + 1])
    ensures PutStrings(view[..i + 1]) == PutStrings(view[..i]) + PutString(view[i])
  {
    assert view[..i + 1][..i] == view[..i];
  }
}
