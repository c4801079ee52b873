/**
 The messages between the primary and the secondaries, as bytes.

 A string is the sequence of its bytes and a float64 is its 8 bytes.  Encoding
 may refuse a message; decoding may run out of bytes or meet an unknown type.
 Indices and kinds are machine integers: converting one to a narrower unsigned
 type keeps it modulo the width of that type.
 */
module Wire {
  import opened Basics

  type Byte = n: nat | n < 256
  type Bytes = seq<Byte>
  type Float = b: Bytes | |b| == 8 witness [0, 0, 0, 0, 0, 0, 0, 0]

  datatype Prepare =
    | Done
    | Client(view: seq<Bytes>, index: int)
    | Interaction(index: int, kind: int, time: Float, payload: Bytes)

  datatype Result =
    | ResultDone
    | ResultInteraction(index: int, kind: int, submit: Float, commit: Float, abort: Float, hasError: bool)

  datatype PrimaryParameters =
    PrimaryParameters(sysname: Bytes, chain: map<Bytes, Bytes>, maxDelay: Float, maxSkew: Float)

  /** A decoded value and the bytes after it. */
  type Parsed<+T> = Option<(T, Bytes)>

  const BYTE: nat := 0x100
  const HALF: nat := 0x1_0000
  const WORD: nat := 0x1_0000_0000

  // ---------- Numbers ----------

  function PutHalf(n: int): (r: Bytes)
    ensures |r| == 2
  {
    [n % 256, n / 256 % 256]
  }

  function PutWord(n: int): (r: Bytes)
    ensures |r| == 4
  {
    [n % 256, n / 256 % 256, n / 256 / 256 % 256, n / 256 / 256 / 256 % 256]
  }

  function GetHalf(b: Bytes): (r: nat)
    requires |b| == 2
  {
    b[0] as int + 256 * b[1] as int
  }

  function GetWord(b: Bytes): (r: nat)
    requires |b| == 4
  {
    b[0] as int + 256 * (b[1] as int + 256 * (b[2] as int + 256 * b[3] as int))
  }

  lemma HalfRemainder(n: int, q: int, r: int)
    requires 0 <= r < HALF && n == r + 0x1_0000 * q
    ensures n % HALF == r
  {}

  lemma WordRemainder(n: int, q: int, r: int)
    requires 0 <= r < WORD && n == r + 0x1_0000_0000 * q
    ensures n % WORD == r
  {}

  /** The number that some bytes stand for, the least significant byte first. */
  function Value(b: Bytes): (n: nat) {
    if b == [] then 0 else b[0] as int + 256 * Value(b[1..])
  }

  /** Numbers are little-endian. */
  lemma LittleEndian(n: int)
    ensures Value(PutHalf(n)) == n % HALF && Value(PutWord(n)) == n % WORD
  {
    NumbersRoundTrip(n);
    var h, w := PutHalf(n), PutWord(n);
    ValueOf(h);
    ValueOf(h[1..]);
    ValueOf(w);
    ValueOf(w[1..]);
    ValueOf(w[2..]);
    ValueOf(w[3..]);
  }

  lemma ValueOf(b: Bytes)
    requires b != []
    ensures Value(b) == b[0] as int + 256 * Value(b[1..])
    ensures |b| == 1 ==> Value(b) == b[0]
    ensures |b| >= 2 ==> b[1..][1..] == b[2..] && b[1..][0] == b[1]
    ensures |b| >= 3 ==> b[2..][1..] == b[3..]
  {}

  /** Numbers come back modulo the width. */
  lemma NumbersRoundTrip(n: int)
    ensures GetHalf(PutHalf(n)) == n % HALF
    ensures GetWord(PutWord(n)) == n % WORD
  {
    var a := n / 256;
    var b := a / 256;
    var c := b / 256;
    HalfRemainder(n, b, n % 256 + 256 * (a % 256));
    WordRemainder(n, c / 256, n % 256 + 256 * (a % 256 + 256 * (b % 256 + 256 * (c % 256))));
  }

  lemma HalfRoundTrip(n: nat)
    requires n < HALF
    ensures GetHalf(PutHalf(n)) == n
  {
    NumbersRoundTrip(n);
  }

  // ---------- Reading ----------

  /** io.ReadFull: n bytes, or none when fewer are left. */
  function Read(n: nat, s: Bytes): (r: Parsed<Bytes>)
    ensures r.Some? ==> |r.value.0| == n && s == r.value.0 + r.value.1
  {
    if |s| < n then None else Some((s[..n], s[n..]))
  }

  lemma ReadExact(x: Bytes, rest: Bytes)
    ensures Read(|x|, x + rest) == Some((x, rest))
  {}

  function PutString(x: Bytes): (r: Bytes)
    requires |x| < BYTE
  {
    [|x|] + x
  }

  function GetString(s: Bytes): (r: Parsed<Bytes>)
    ensures r.Some? ==> |r.value.1| < |s|
  {
    match Read(1, s)
    case None => None
    case Some((n, s1)) => Read(n[0], s1)
  }

  lemma StringRoundTrip(x: Bytes, rest: Bytes)
    requires |x| < BYTE
    ensures GetString(PutString(x) + rest) == Some((x, rest))
  {
    var n: Byte := |x|;
    assert PutString(x) + rest == [n] + (x + rest);
    ReadExact([n], x + rest);
    ReadExact(x, rest);
  }

  predicate AllShort(xs: seq<Bytes>) {
    forall i :: 0 <= i < |xs| ==> |xs[i]| < BYTE
  }

  function PutStrings(xs: seq<Bytes>): (r: Bytes)
    requires AllShort(xs)
  {
    if xs == [] then [] else PutStrings(xs[..|xs| - 1]) + PutString(xs[|xs| - 1])
  }

  function GetStrings(n: nat, s: Bytes): (r: Parsed<seq<Bytes>>)
    ensures r.Some? ==> |r.value.0| == n && |r.value.1| <= |s|
  {
    if n == 0 then Some(([], s))
    else
      match GetStrings(n - 1, s)
      case None => None
      case Some((xs, s1)) =>
        match GetString(s1)
        case None => None
        case Some((x, s2)) => Some((xs + [x], s2))
  }

  lemma {:induction false} StringsRoundTrip(xs: seq<Bytes>, rest: Bytes)
    requires AllShort(xs)
    ensures GetStrings(|xs|, PutStrings(xs) + rest) == Some((xs, rest))
  {
    hide GetString, PutString;
    if xs == [] {
      assert PutStrings(xs) + rest == rest;
    } else {
      var init, last := xs[..|xs| - 1], xs[|xs| - 1];
      assert PutStrings(xs) + rest == PutStrings(init) + (PutString(last) + rest);
      StringsRoundTrip(init, PutString(last) + rest);
      StringRoundTrip(last, rest);
      assert xs == init + [last];
    }
  }

  // ---------- Prepare messages ----------

  predicate PrepareAccepted(m: Prepare) {
    match m
    case Done => true
    case Client(view, index) => |view| < HALF && AllShort(view) && index < WORD
    case Interaction(index, kind, _, payload) => index < WORD && kind < BYTE && |payload| < HALF
  }

  function PutPrepare(m: Prepare): (r: Option<Bytes>)
    ensures r.Some? <==> PrepareAccepted(m)
  {
    if !PrepareAccepted(m) then None
    else
      match m
      case Done => Some([0])
      case Client(view, index) =>
        Some([1] + PutHalf(|view|) + PutStrings(view) + PutWord(index))
      case Interaction(index, kind, time, payload) =>
        Some([2] + PutWord(index) + [kind % 256] + time + PutHalf(|payload|) + payload)
  }

  function GetClient(s: Bytes): (r: Parsed<Prepare>)
    ensures r.Some? ==> |r.value.1| < |s|
  {
    match Read(2, s)
    case None => None
    case Some((n, s1)) =>
      match GetStrings(GetHalf(n), s1)
      case None => None
      case Some((view, s2)) => GetClientIndex(view, s2)
  }

  function GetClientIndex(view: seq<Bytes>, s: Bytes): (r: Parsed<Prepare>)
    ensures r.Some? ==> |r.value.1| < |s|
  {
    match Read(4, s)
    case None => None
    case Some((index, s1)) => Some((Client(view, GetWord(index)), s1))
  }

  /** The client index of an interaction goes through a single byte. */
  function GetInteraction(s: Bytes): (r: Parsed<Prepare>)
    ensures r.Some? ==> |r.value.1| < |s|
  {
    match Read(4, s)
    case None => None
    case Some((index, s1)) =>
      match Read(1, s1)
      case None => None
      case Some((kind, s2)) =>
        match Read(8, s2)
        case None => None
        case Some((time, s3)) =>
          match Read(2, s3)
          case None => None
          case Some((n, s4)) =>
            match Read(GetHalf(n), s4)
            case None => None
            case Some((payload, s5)) =>
              Some((Interaction(GetWord(index) % BYTE, kind[0], time, payload), s5))
  }

  function GetPrepare(s: Bytes): (r: Parsed<Prepare>)
    ensures r.Some? ==> |r.value.1| < |s|
  {
    match Read(1, s)
    case None => None
    case Some((t, s1)) =>
      if t[0] == 0 then Some((Done, s1))
      else if t[0] == 1 then GetClient(s1)
      else if t[0] == 2 then GetInteraction(s1)
      else None
  }

  /** A prepare message as its receiver sees it. */
  function ReceivedPrepare(m: Prepare): (r: Prepare) {
    match m
    case Done => Done
    case Client(view, index) => Client(view, index % WORD)
    case Interaction(index, kind, time, payload) => Interaction(index % BYTE, kind % BYTE, time, payload)
  }

  lemma ClientIndexRoundTrip(view: seq<Bytes>, index: int, rest: Bytes)
    ensures GetClientIndex(view, PutWord(index) + rest) == Some((Client(view, index % WORD), rest))
  {
    hide PutWord, GetWord, Read;
    ReadExact(PutWord(index), rest);
    NumbersRoundTrip(index);
  }

  lemma Regroup(a: Bytes, b: Bytes, c: Bytes, d: Bytes)
    ensures a + b + c + d == a + (b + (c + d))
  {}

  lemma ClientRoundTrip(view: seq<Bytes>, index: int, rest: Bytes)
    requires |view| < HALF && AllShort(view)
    ensures GetClient(PutHalf(|view|) + PutStrings(view) + PutWord(index) + rest)
            == Some((Client(view, index % WORD), rest))
  {
    hide GetStrings, PutStrings, PutHalf, PutWord, GetHalf, GetWord, Read, GetClientIndex, AllShort;
    var n, strings, word := PutHalf(|view|), PutStrings(view), PutWord(index);
    var s2 := word + rest;
    var s1 := strings + s2;
    Regroup(n, strings, word, rest);
    ReadExact(n, s1);
    HalfRoundTrip(|view|);
    StringsRoundTrip(view, s2);
    ClientIndexRoundTrip(view, index, rest);
  }

  lemma ByteOfWord(n: int)
    ensures n % WORD % BYTE == n % BYTE
  {}

  lemma InteractionRoundTrip(index: int, kind: int, time: Float, payload: Bytes, rest: Bytes)
    requires |payload| < HALF
    ensures GetInteraction(PutWord(index) + [kind % 256] + time + PutHalf(|payload|) + payload + rest)
            == Some((Interaction(index % BYTE, kind % BYTE, time, payload), rest))
  {
    hide PutHalf, PutWord, GetHalf, GetWord, Read;
    var word, n := PutWord(index), PutHalf(|payload|);
    var k: Bytes := [kind % 256];
    var s4 := payload + rest;
    var s3 := n + s4;
    var s2 := time + s3;
    var s1 := k + s2;
    Regroup(word, k, time, n + payload + rest);
    assert n + payload + rest == s3;
    assert word + k + time + n + payload + rest == word + k + time + (n + payload + rest);
    ReadExact(word, s1);
    ReadExact(k, s2);
    ReadExact(time, s3);
    ReadExact(n, s4);
    ReadExact(payload, rest);
    NumbersRoundTrip(index);
    HalfRoundTrip(|payload|);
    ByteOfWord(index);
  }

  /** Whatever encode accepts comes back, up to the widths, and nothing after it is touched. */
  lemma PrepareRoundTrip(m: Prepare, rest: Bytes)
    requires PrepareAccepted(m)
    ensures GetPrepare(PutPrepare(m).value + rest) == Some((ReceivedPrepare(m), rest))
  {
    hide GetClient, GetInteraction, PutStrings, PutHalf, PutWord;
    var bytes := PutPrepare(m).value;
    var tag: Bytes := [bytes[0]];
    ReadExact(tag, bytes[1..] + rest);
    assert bytes + rest == tag + (bytes[1..] + rest);
    match m
    case Done =>
      assert bytes[1..] + rest == rest;
    case Client(view, index) =>
      ClientRoundTrip(view, index, rest);
      assert bytes[1..] == PutHalf(|view|) + PutStrings(view) + PutWord(index);
    case Interaction(index, kind, time, payload) =>
      InteractionRoundTrip(index, kind, time, payload, rest);
      assert bytes[1..] == PutWord(index) + [kind % 256] + time + PutHalf(|payload|) + payload;
  }

  /** A prepare message is decoded as it was encoded exactly when its numbers fit. */
  lemma PrepareReceivedAsSent(m: Prepare, rest: Bytes)
    requires PrepareAccepted(m)
    ensures GetPrepare(PutPrepare(m).value + rest) == Some((m, rest)) <==>
            match m
            case Done => true
            case Client(_, index) => 0 <= index
            case Interaction(index, kind, _, _) => 0 <= index < BYTE && 0 <= kind
  {
    hide GetPrepare, PutPrepare;
    PrepareRoundTrip(m, rest);
  }

  /** Where the fields of an interaction are. */
  lemma InteractionLayout(index: nat, kind: nat, time: Float, payload: Bytes)
    requires PrepareAccepted(Interaction(index, kind, time, payload))
    ensures var b := PutPrepare(Interaction(index, kind, time, payload)).value;
            && |b| == 16 + |payload|
            && b[0] == 2 && Value(b[1..5]) == index && b[5] == kind && b[6..14] == time
            && Value(b[14..16]) == |payload| && b[16..] == payload
  {
    hide PutHalf, PutWord, Value;
    var b := PutPrepare(Interaction(index, kind, time, payload)).value;
    LittleEndian(index);
    LittleEndian(|payload|);
    assert b[1..5] == PutWord(index) && b[14..16] == PutHalf(|payload|);
  }

  /** Where the fields of a client are. */
  lemma ClientLayout(view: seq<Bytes>, index: nat)
    requires PrepareAccepted(Client(view, index))
    ensures var b := PutPrepare(Client(view, index)).value;
            && |b| >= 7 && b[0] == 1 && Value(b[1..3]) == |view|
            && Value(b[|b| - 4..]) == index && b[3..|b| - 4] == PutStrings(view)
  {
    hide PutHalf, PutWord, Value, PutStrings;
    var b := PutPrepare(Client(view, index)).value;
    LittleEndian(index);
    LittleEndian(|view|);
    assert b[1..3] == PutHalf(|view|) && b[|b| - 4..] == PutWord(index);
  }

  // ---------- Result messages ----------

  predicate ResultAccepted(m: Result) {
    m.ResultInteraction? ==> m.index < WORD && m.kind < BYTE
  }

  function PutResult(m: Result): (r: Option<Bytes>)
    ensures r.Some? <==> ResultAccepted(m)
  {
    if !ResultAccepted(m) then None
    else
      match m
      case ResultDone => Some([0])
      case ResultInteraction(index, kind, submit, commit, abort, hasError) =>
        Some([1] + PutWord(index) + [kind % 256] + submit + commit + abort + [if hasError then 1 else 0])
  }

  function GetResultInteraction(s: Bytes): (r: Parsed<Result>)
    ensures r.Some? ==> |r.value.1| < |s|
  {
    match Read(4, s)
    case None => None
    case Some((index, s1)) =>
      match Read(1, s1)
      case None => None
      case Some((kind, s2)) =>
        match Read(8, s2)
        case None => None
        case Some((submit, s3)) =>
          match Read(8, s3)
          case None => None
          case Some((commit, s4)) =>
            match Read(8, s4)
            case None => None
            case Some((abort, s5)) =>
              match Read(1, s5)
              case None => None
              case Some((err, s6)) =>
                Some((ResultInteraction(GetWord(index), kind[0], submit, commit, abort, err[0] == 1), s6))
  }

  function GetResult(s: Bytes): (r: Parsed<Result>)
    ensures r.Some? ==> |r.value.1| < |s|
  {
    match Read(1, s)
    case None => None
    case Some((t, s1)) =>
      if t[0] == 0 then Some((ResultDone, s1))
      else if t[0] == 1 then GetResultInteraction(s1)
      else None
  }

  /** A result message as its receiver sees it. */
  function ReceivedResult(m: Result): (r: Result) {
    match m
    case ResultDone => m
    case ResultInteraction(index, kind, _, _, _, _) => m.(index := index % WORD, kind := kind % BYTE)
  }

  lemma ResultInteractionRoundTrip(
    index: int, kind: int, submit: Float, commit: Float, abort: Float, hasError: bool, rest: Bytes)
    ensures GetResultInteraction(
              PutWord(index) + [kind % 256] + submit + commit + abort + [if hasError then 1 else 0] + rest)
            == Some((ResultInteraction(index % WORD, kind % BYTE, submit, commit, abort, hasError), rest))
  {
    hide PutWord, GetWord, Read;
    var word := PutWord(index);
    var k: Bytes, e: Bytes := [kind % 256], [if hasError then 1 else 0];
    var s5 := e + rest;
    var s4 := abort + s5;
    var s3 := commit + s4;
    var s2 := submit + s3;
    var s1 := k + s2;
    assert word + k + submit + commit + abort + e + rest == word + s1;
    ReadExact(word, s1);
    ReadExact(k, s2);
    ReadExact(submit, s3);
    ReadExact(commit, s4);
    ReadExact(abort, s5);
    ReadExact(e, rest);
    NumbersRoundTrip(index);
  }

  lemma ResultRoundTrip(m: Result, rest: Bytes)
    requires ResultAccepted(m)
    ensures GetResult(PutResult(m).value + rest) == Some((ReceivedResult(m), rest))
  {
    hide GetResultInteraction, PutWord;
    var bytes := PutResult(m).value;
    var tag: Bytes := [bytes[0]];
    ReadExact(tag, bytes[1..] + rest);
    assert bytes + rest == tag + (bytes[1..] + rest);
    match m
    case ResultDone =>
      assert bytes[1..] + rest == rest;
    case ResultInteraction(index, kind, submit, commit, abort, hasError) =>
      ResultInteractionRoundTrip(index, kind, submit, commit, abort, hasError, rest);
      assert bytes[1..] ==
        PutWord(index) + [kind % 256] + submit + commit + abort + [if hasError then 1 else 0];
  }

  /** Where the fields of a result are. */
  lemma ResultLayout(index: nat, kind: nat, submit: Float, commit: Float, abort: Float, hasError: bool)
    requires ResultAccepted(ResultInteraction(index, kind, submit, commit, abort, hasError))
    ensures var b := PutResult(ResultInteraction(index, kind, submit, commit, abort, hasError)).value;
            && |b| == 31 && b[0] == 1 && Value(b[1..5]) == index && b[5] == kind
            && b[6..14] == submit && b[14..22] == commit && b[22..30] == abort && b[30] == if hasError then 1 else 0
  {
    hide PutWord, Value;
    var b := PutResult(ResultInteraction(index, kind, submit, commit, abort, hasError)).value;
    LittleEndian(index);
    assert b[1..5] == PutWord(index);
  }

  // ---------- Streams of messages ----------

  function PutPrepares(ms: seq<Prepare>): (r: Bytes)
    requires forall i :: 0 <= i < |ms| ==> PrepareAccepted(ms[i])
  {
    if ms == [] then [] else PutPrepare(ms[0]).value + PutPrepares(ms[1..])
  }

  /** Decodes n messages one after the other. */
  function GetPrepares(n: nat, s: Bytes): (r: Parsed<seq<Prepare>>) {
    if n == 0 then Some(([], s))
    else
      match GetPrepare(s)
      case None => None
      case Some((m, s1)) =>
        match GetPrepares(n - 1, s1)
        case None => None
        case Some((ms, s2)) => Some(([m] + ms, s2))
  }

  function ReceivedPrepares(ms: seq<Prepare>): (r: seq<Prepare>)
    ensures |r| == |ms| && forall i :: 0 <= i < |r| ==> r[i] == ReceivedPrepare(ms[i])
  {
    seq(|ms|, i requires 0 <= i < |ms| => ReceivedPrepare(ms[i]))
  }

  /** The prepare stream is self-delimiting. */
  lemma {:induction false} PrepareStreamRoundTrip(ms: seq<Prepare>, rest: Bytes)
    requires forall i :: 0 <= i < |ms| ==> PrepareAccepted(ms[i])
    ensures GetPrepares(|ms|, PutPrepares(ms) + rest) == Some((ReceivedPrepares(ms), rest))
  {
    hide PutPrepare, GetPrepare, PrepareAccepted, ReceivedPrepare;
    if ms == [] {
      assert PutPrepares(ms) + rest == rest;
    } else {
      var first := PutPrepare(ms[0]).value;
      assert PutPrepares(ms) + rest == first + (PutPrepares(ms[1..]) + rest);
      PrepareRoundTrip(ms[0], PutPrepares(ms[1..]) + rest);
      PrepareStreamRoundTrip(ms[1..], rest);
      assert ReceivedPrepares(ms) == [ReceivedPrepare(ms[0])] + ReceivedPrepares(ms[1..]);
    }
  }

  function PutResults(ms: seq<Result>): (r: Bytes)
    requires forall i :: 0 <= i < |ms| ==> ResultAccepted(ms[i])
  {
    if ms == [] then [] else PutResult(ms[0]).value + PutResults(ms[1..])
  }

  function GetResults(n: nat, s: Bytes): (r: Parsed<seq<Result>>) {
    if n == 0 then Some(([], s))
    else
      match GetResult(s)
      case None => None
      case Some((m, s1)) =>
        match GetResults(n - 1, s1)
        case None => None
        case Some((ms, s2)) => Some(([m] + ms, s2))
  }

  function ReceivedResults(ms: seq<Result>): (r: seq<Result>)
    ensures |r| == |ms| && forall i :: 0 <= i < |r| ==> r[i] == ReceivedResult(ms[i])
  {
    seq(|ms|, i requires 0 <= i < |ms| => ReceivedResult(ms[i]))
  }

  /** The result stream is self-delimiting. */
  lemma {:induction false} ResultStreamRoundTrip(ms: seq<Result>, rest: Bytes)
    requires forall i :: 0 <= i < |ms| ==> ResultAccepted(ms[i])
    ensures GetResults(|ms|, PutResults(ms) + rest) == Some((ReceivedResults(ms), rest))
  {
    hide PutResult, GetResult, ResultAccepted, ReceivedResult;
    if ms == [] {
      assert PutResults(ms) + rest == rest;
    } else {
      var first := PutResult(ms[0]).value;
      assert PutResults(ms) + rest == first + (PutResults(ms[1..]) + rest);
      ResultRoundTrip(ms[0], PutResults(ms[1..]) + rest);
      ResultStreamRoundTrip(ms[1..], rest);
      assert ReceivedResults(ms) == [ReceivedResult(ms[0])] + ReceivedResults(ms[1..]);
    }
  }

  // ---------- Parameters ----------

  predicate ParametersAccepted(p: PrimaryParameters) {
    && |p.sysname| < BYTE && |p.chain| < BYTE
    && forall k :: k in p.chain ==> |k| < BYTE && |p.chain[k]| < BYTE
  }

  /** An order in which the entries of a map may be visited. */
  ghost predicate OrderOf(order: seq<Bytes>, m: map<Bytes, Bytes>) {
    && (forall i :: 0 <= i < |order| ==> order[i] in m)
    && (forall i, j :: 0 <= i < j < |order| ==> order[i] != order[j])
    && (forall k :: k in m ==> k in order)
  }

  function PutEntry(k: Bytes, v: Bytes): (r: Bytes)
    requires |k| < BYTE && |v| < BYTE
  {
    [|k|, |v|] + k + v
  }

  /** The entries of a map, visited in the given order. */
  function PutEntries(order: seq<Bytes>, m: map<Bytes, Bytes>): (r: Bytes)
    requires forall i :: 0 <= i < |order| ==> order[i] in m && |order[i]| < BYTE && |m[order[i]]| < BYTE
  {
    if order == [] then []
    else
      var k := order[|order| - 1];
      PutEntries(order[..|order| - 1], m) + PutEntry(k, m[k])
  }

  function PutParameters(p: PrimaryParameters, order: seq<Bytes>): (r: Bytes)
    requires ParametersAccepted(p) && |order| == |p.chain|
    requires forall i :: 0 <= i < |order| ==> order[i] in p.chain
  {
    PutString(p.sysname) + [|p.chain|] + PutEntries(order, p.chain) + p.maxDelay + p.maxSkew
  }

  /** Where the fields of the parameters are. */
  lemma ParametersLayout(p: PrimaryParameters, order: seq<Bytes>)
    requires ParametersAccepted(p) && |order| == |p.chain|
    requires forall i :: 0 <= i < |order| ==> order[i] in p.chain
    ensures var b, n := PutParameters(p, order), |p.sysname|;
            && |b| >= n + 18 && b[0] == n && b[1..n + 1] == p.sysname && b[n + 1] == |p.chain|
            && b[n + 2..|b| - 16] == PutEntries(order, p.chain)
            && b[|b| - 16..|b| - 8] == p.maxDelay && b[|b| - 8..] == p.maxSkew
  {
    hide PutEntries;
  }

  function GetEntry(s: Bytes): (r: Parsed<(Bytes, Bytes)>) {
    match Read(2, s)
    case None => None
    case Some((n, s1)) =>
      match Read(n[0], s1)
      case None => None
      case Some((k, s2)) =>
        match Read(n[1], s2)
        case None => None
        case Some((v, s3)) => Some(((k, v), s3))
  }

  function GetEntries(n: nat, s: Bytes): (r: Parsed<map<Bytes, Bytes>>) {
    if n == 0 then Some((map[], s))
    else
      match GetEntries(n - 1, s)
      case None => None
      case Some((m, s1)) =>
        match GetEntry(s1)
        case None => None
        case Some(((k, v), s2)) => Some((m[k := v], s2))
  }

  function GetParameters(s: Bytes): (r: Parsed<PrimaryParameters>) {
    match GetString(s)
    case None => None
    case Some((sysname, s1)) =>
      match Read(1, s1)
      case None => None
      case Some((n, s2)) =>
        match GetEntries(n[0], s2)
        case None => None
        case Some((chain, s3)) =>
          match Read(8, s3)
          case None => None
          case Some((maxDelay, s4)) =>
            match Read(8, s4)
            case None => None
            case Some((maxSkew, s5)) =>
              Some((PrimaryParameters(sysname, chain, maxDelay, maxSkew), s5))
  }

  lemma EntryRoundTrip(k: Bytes, v: Bytes, rest: Bytes)
    requires |k| < BYTE && |v| < BYTE
    ensures GetEntry(PutEntry(k, v) + rest) == Some(((k, v), rest))
  {
    var n: Bytes := [|k|, |v|];
    assert PutEntry(k, v) + rest == n + (k + (v + rest));
    ReadExact(n, k + (v + rest));
    ReadExact(k, v + rest);
    ReadExact(v, rest);
  }

  /** The map restricted to the keys visited so far. */
  ghost function Visited(order: seq<Bytes>, m: map<Bytes, Bytes>): (r: map<Bytes, Bytes>) {
    map k | k in m && k in order :: m[k]
  }

  lemma {:induction false} EntriesRoundTrip(order: seq<Bytes>, m: map<Bytes, Bytes>, rest: Bytes)
    requires forall i :: 0 <= i < |order| ==> order[i] in m && |order[i]| < BYTE && |m[order[i]]| < BYTE
    ensures GetEntries(|order|, PutEntries(order, m) + rest) == Some((Visited(order, m), rest))
  {
    hide GetEntry, PutEntry;
    if order == [] {
      assert PutEntries(order, m) + rest == rest;
      assert Visited(order, m) == map[];
    } else {
      var init, k := order[..|order| - 1], order[|order| - 1];
      assert PutEntries(order, m) + rest == PutEntries(init, m) + (PutEntry(k, m[k]) + rest);
      EntriesRoundTrip(init, m, PutEntry(k, m[k]) + rest);
      EntryRoundTrip(k, m[k], rest);
      assert order == init + [k];
      assert Visited(order, m) == Visited(init, m)[k := m[k]];
    }
  }

  lemma {:induction false} OrderLength(order: seq<Bytes>, m: map<Bytes, Bytes>)
    requires OrderOf(order, m)
    ensures |order| == |m|
  {
    if order == [] {
      assert forall k :: k !in m;
      assert m == map[];
    } else {
      var init, last := order[..|order| - 1], order[|order| - 1];
      var rest := m - {last};
      assert order == init + [last];
      assert m.Keys == rest.Keys + {last};
      OrderLength(init, rest);
    }
  }

  /** The primary's parameters come back whatever the order in which the map is visited. */
  lemma ParametersRoundTrip(p: PrimaryParameters, order: seq<Bytes>, rest: Bytes)
    requires ParametersAccepted(p) && OrderOf(order, p.chain)
    ensures |order| == |p.chain|
    ensures GetParameters(PutParameters(p, order) + rest) == Some((p, rest))
  {
    hide GetString, PutString, GetEntries, PutEntries, Read;
    OrderLength(order, p.chain);
    var n: Bytes := [|p.chain|];
    var entries := PutEntries(order, p.chain);
    var s4 := p.maxSkew + rest;
    var s3 := p.maxDelay + s4;
    var s2 := entries + s3;
    var s1 := n + s2;
    assert PutParameters(p, order) + rest == PutString(p.sysname) + s1;
    StringRoundTrip(p.sysname, s1);
    ReadExact(n, s2);
    EntriesRoundTrip(order, p.chain, s3);
    assert Visited(order, p.chain) == p.chain;
    ReadExact(p.maxDelay, s4);
    ReadExact(p.maxSkew, rest);
  }
}
