/**
 The linear ramp of the benchmark parser: a map from some seconds to transaction rates
 is filled up to a rate for every second, and the transactions are counted.

 The parser adds a fractional increment once per second and truncates; the reference is
 the straight line between the two keys around a second, rounded down.  Seconds and
 rates are arbitrary integers; floating-point numbers are modelled as reals.
 */
module Ramp {
  import opened Basics

  type Rates = map<int, int>

  // ---------- Rounded lines ----------

  /** The line from (a, u) to (b, v) at second s, rounded down. */
  function Rounded(a: int, u: int, b: int, v: int, s: int): (r: int)
    requires a < b
  {
    u + (s - a) * (v - u) / (b - a)
  }

  /** The parser's increment for a change of d in n seconds. */
  function Increment(d: int, n: int): (r: real)
    requires n != 0
  {
    d as real / n as real
  }

  /** The value of the parser's accumulator after k increments. */
  function Line(u: int, d: int, n: int, k: int): (r: real)
    requires n != 0
  {
    u as real + k as real * Increment(d, n)
  }

  lemma LineStep(u: int, d: int, n: int, k: int)
    requires n != 0
    ensures Line(u, d, n, 0) == u as real
    ensures Line(u, d, n, k + 1) == Line(u, d, n, k) + Increment(d, n)
  {
    hide Increment;
    var inc := Increment(d, n);
    assert (k + 1) as real * inc == k as real * inc + inc;
  }

  lemma Fraction(r: int, n: nat)
    requires 0 <= r < n
    ensures 0.0 <= r as real / n as real < 1.0
  {}

  lemma Scaled(k: int, d: int, n: nat)
    requires n > 0
    ensures k as real * (d as real / n as real) == (k * d) as real / n as real
  {}

  lemma SplitQuotient(q: int, r: int, n: nat)
    requires n > 0
    ensures (q * n + r) as real / n as real == q as real + r as real / n as real
  {}

  lemma FloorOfQuotient(p: int, n: nat)
    requires n > 0
    ensures (p as real / n as real).Floor == p / n
  {
    var q, r := p / n, p % n;
    assert p == q * n + r;
    SplitQuotient(q, r, n);
    Fraction(r, n);
  }

  /** Rounding the accumulator down gives the rounded line. */
  lemma LineRounded(a: int, u: int, b: int, v: int, s: int)
    requires a <= s && a < b
    ensures Line(u, v - u, b - a, s - a).Floor == Rounded(a, u, b, v, s)
  {
    Scaled(s - a, v - u, b - a);
    FloorOfQuotient((s - a) * (v - u), b - a);
  }

  lemma QuotientBounds(p: int, n: nat, d: int)
    requires n > 0
    ensures p <= n * d ==> p / n <= d
    ensures p >= n * d ==> p / n >= d
  {
    var q := p / n;
    assert n * q <= p < n * (q + 1);
    if q > d {
      assert n * q >= n * (d + 1);
    } else if q < d {
      assert n * (q + 1) <= n * d;
    }
  }

  /** The rounded line stays between its ends. */
  lemma RoundedBetween(a: int, u: int, b: int, v: int, s: int)
    requires a <= s < b
    ensures u <= v ==> u <= Rounded(a, u, b, v, s) <= v
    ensures v <= u ==> v <= Rounded(a, u, b, v, s) <= u
  {
    var k, n, d := s - a, b - a, v - u;
    ProductBetween(k, n, d);
    QuotientBounds(k * d, n, 0);
    QuotientBounds(k * d, n, d);
  }

  lemma ProductBetween(k: nat, n: nat, d: int)
    requires k <= n
    ensures d >= 0 ==> 0 <= k * d <= n * d
    ensures d <= 0 ==> n * d <= k * d <= 0
  {
    assert n * d == k * d + (n - k) * d;
    if d >= 0 {
      assert (n - k) * d >= 0;
    } else {
      assert (n - k) * -d >= 0;
    }
  }

  lemma RoundedAtStart(a: int, u: int, b: int, v: int)
    requires a < b
    ensures Rounded(a, u, b, v, a) == u
  {
    assert 0 * (v - u) == 0;
  }

  // ---------- The full map ----------

  lemma {:induction false} ExtremesExist(keys: set<int>)
    requires keys != {}
    ensures exists l :: l in keys && forall k :: k in keys ==> k <= l
    ensures exists f :: f in keys && forall k :: k in keys ==> f <= k
  {
    var m := Member(keys);
    var rest := keys - {m};
    if rest == {} {
      assert keys == {m};
    } else {
      ExtremesExist(rest);
      var l :| l in rest && forall k :: k in rest ==> k <= l;
      var f :| f in rest && forall k :: k in rest ==> f <= k;
      var top, bottom := if l > m then l else m, if f < m then f else m;
      forall k | k in keys ensures bottom <= k <= top {
        assert k == m || k in rest;
      }
      assert top in keys && bottom in keys;
    }
  }

  ghost function Last(m: Rates): (last: int)
    requires m != map[]
    ensures last in m && forall k :: k in m ==> k <= last
  {
    HasKey(m);
    ExtremesExist(m.Keys);
    var l :| l in m.Keys && forall k :: k in m.Keys ==> k <= l;
    l
  }

  ghost function First(m: Rates): (first: int)
    requires m != map[]
    ensures first in m && forall k :: k in m ==> first <= k
  {
    HasKey(m);
    ExtremesExist(m.Keys);
    var f :| f in m.Keys && forall k :: k in m.Keys ==> f <= k;
    f
  }

  lemma HasKey(m: Rates)
    ensures m != map[] <==> m.Keys != {}
  {
    if m.Keys == {} { assert m == map[]; }
  }

  /** The key at or before a second. */
  ghost function Before(m: Rates, s: int): (a: int)
    requires m != map[] && First(m) <= s
    ensures a in m && a <= s
    ensures forall k :: a < k <= s ==> k !in m
    decreases s - First(m)
  {
    if s in m then s else Before(m, s - 1)
  }

  /** The key after a second. */
  ghost function After(m: Rates, s: int): (b: int)
    requires m != map[] && s < Last(m)
    ensures b in m && b > s
    ensures forall k :: s < k < b ==> k !in m
    decreases Last(m) - s
  {
    if s + 1 in m then s + 1 else After(m, s + 1)
  }

  /** The rate of a second: the line between the two keys around it. */
  ghost function RateAt(m: Rates, s: int): (r: int)
    requires m != map[] && First(m) <= s <= Last(m)
  {
    if s == Last(m) then m[s]
    else
      var a, b := Before(m, s), After(m, s);
      Rounded(a, m[a], b, m[b], s)
  }

  /** A rate for every second from the first key up to the last. */
  ghost function Expand(m: Rates): (full: Rates)
    requires m != map[]
    ensures forall s :: s in full <==> First(m) <= s <= Last(m)
    ensures forall s :: s in full ==> full[s] == RateAt(m, s)
  {
    map s | First(m) <= s <= Last(m) :: RateAt(m, s)
  }

  /** The map with a rate of nothing at second 0, unless it has one. */
  function Started(m: Rates): (r: Rates) {
    if 0 in m then m else m[0 := 0]
  }

  /** The map that is expanded: it starts with nothing at second 0 unless it starts earlier. */
  ghost function Base(m: Rates): (r: Rates)
    ensures r != map[] && First(r) <= 0
    ensures forall k :: k in m ==> k in r && r[k] == m[k]
    ensures forall k :: k in r ==> k in m || (k == 0 && r[k] == 0)
  {
    if exists k :: k in m && k <= 0 then
      var k :| k in m && k <= 0;
      m
    else
      var r := m[0 := 0];
      assert 0 in r;
      r
  }

  /** The rates of the seconds from lo up to hi, summed. */
  ghost function Sum(full: Rates, lo: int, hi: int): (r: int)
    requires forall s :: lo <= s < hi ==> s in full
    decreases hi - lo
  {
    if hi <= lo then 0 else Sum(full, lo, hi - 1) + full[hi - 1]
  }

  /** All the transactions of a benchmark. */
  ghost function Transactions(m: Rates): (r: int) {
    var base := Base(m);
    Sum(Expand(base), First(base), Last(base) + 1)
  }

  // ---------- What the expansion keeps ----------

  /** The expansion agrees with the map at its keys. */
  lemma AgreesAtKeys(m: Rates, k: int)
    requires k in m
    ensures k in Expand(Base(m)) && Expand(Base(m))[k] == m[k]
  {
    ExpandAtKey(Base(m), k);
  }

  lemma ExpandAtKey(m: Rates, k: int)
    requires k in m
    ensures k in Expand(m) && Expand(m)[k] == m[k]
  {
    if k < Last(m) {
      var b := After(m, k);
      RoundedAtStart(k, m[k], b, m[b]);
    }
  }

  /** Every rate lies between the rates of two consecutive keys around its second. */
  lemma StaysBetween(m: Rates, s: int)
    requires First(Base(m)) <= s < Last(Base(m))
    ensures var base := Base(m);
            var a, b := Before(base, s), After(base, s);
            && a <= s < b
            && (base[a] <= base[b] ==> base[a] <= Expand(base)[s] <= base[b])
            && (base[b] <= base[a] ==> base[b] <= Expand(base)[s] <= base[a])
  {
    var base := Base(m);
    var a, b := Before(base, s), After(base, s);
    RoundedBetween(a, base[a], b, base[b], s);
  }

  lemma RoundedDown(a: int, u: int, b: int, v: int, s: int)
    requires a < b
    ensures var r := Rounded(a, u, b, v, s);
            (b - a) * (r - u) <= (s - a) * (v - u) < (b - a) * (r - u + 1)
  {
    var p, n := (s - a) * (v - u), b - a;
    var q := p / n;
    assert p == n * q + p % n;
    assert n * (q + 1) == n * q + n;
  }

  /** Every rate is the last whole number on or below the line between the two consecutive keys around its second. */
  lemma OnTheLine(m: Rates, s: int)
    requires First(Base(m)) <= s < Last(Base(m))
    ensures var base := Base(m);
            var a, b, r := Before(base, s), After(base, s), Expand(base)[s];
            && a <= s < b
            && (b - a) * (r - base[a]) <= (s - a) * (base[b] - base[a]) < (b - a) * (r - base[a] + 1)
  {
    hide Rounded, Base, First, Last, Before, After;
    var base := Base(m);
    var a, b := Before(base, s), After(base, s);
    assert Expand(base)[s] == Rounded(a, base[a], b, base[b], s);
    RoundedDown(a, base[a], b, base[b], s);
  }

  lemma SameEnds(m: Rates, full: Rates)
    requires m != map[] && forall s :: s in full <==> First(m) <= s <= Last(m)
    ensures full != map[] && First(full) == First(m) && Last(full) == Last(m)
  {
    assert Last(m) in full && First(m) in full;
  }

  /** Expanding a full map changes nothing. */
  lemma ExpandTwice(m: Rates)
    ensures var full := Expand(Base(m));
            Base(full) == full && Expand(full) == full
  {
    var full := Expand(Base(m));
    SameEnds(Base(m), full);
    forall s | s in full ensures Expand(full)[s] == full[s] {
      ExpandAtKey(full, s);
    }
  }

  /** The transactions are the same counted on the map and on its expansion. */
  lemma TransactionsOfExpansion(m: Rates)
    ensures Transactions(Expand(Base(m))) == Transactions(m)
  {
    ExpandTwice(m);
    SameEnds(Base(m), Expand(Base(m)));
  }

  // ---------- The keys in order ----------

  ghost predicate KeysOf(m: Rates, keys: seq<int>) {
    Ascending(keys, (k: int) => k as real) && forall k :: k in keys <==> k in m
  }

  /** The keys as the parser walks them: those of the base map, after second 0 if it is not among them. */
  ghost predicate Walked(base: Rates, keys: seq<int>, skip: nat) {
    && skip < |keys| && KeysOf(base, keys[skip..])
    && (skip == 1 ==> keys[1..] != [] && keys[1] < keys[0] == 0)
    && skip <= 1
  }

  lemma Rises(keys: seq<int>)
    requires Ascending(keys, (k: int) => k as real)
    ensures forall i, j :: 0 <= i < j < |keys| ==> keys[i] < keys[j]
  {
    var rank := (k: int) => k as real;
    forall i, j | 0 <= i < j < |keys| ensures keys[i] < keys[j] {
      assert rank(keys[i]) < rank(keys[j]);
    }
  }

  /** A map that starts at or before second 0 is walked as it is, after second 0 if that is missing. */
  lemma WalkedAsIs(m: Rates, keys: seq<int>)
    requires KeysOf(m, keys) && keys != [] && keys[0] <= 0
    ensures Base(m) == m
    ensures keys[0] == 0 || 0 in m ==> Walked(m, keys, 0)
    ensures keys[0] < 0 ==> Walked(m, [0] + keys, 1)
  {
    assert keys[0] in keys;
    assert ([0] + keys)[1..] == keys && keys[0..] == keys;
  }

  lemma AscendingFirst(x: int, keys: seq<int>)
    requires Ascending(keys, (k: int) => k as real) && (keys != [] ==> x < keys[0])
    ensures Ascending([x] + keys, (k: int) => k as real)
  {
    var rank, all := (k: int) => k as real, [x] + keys;
    forall i, j | 0 <= i < j < |all| ensures rank(all[i]) < rank(all[j]) {
      if i == 0 && j > 1 {
        assert rank(keys[0]) < rank(keys[j - 1]);
      }
    }
  }

  /** A map that starts later is walked from second 0. */
  lemma WalkedFromZero(m: Rates, keys: seq<int>)
    requires KeysOf(m, keys) && (keys != [] ==> keys[0] > 0)
    ensures 0 !in m && Walked(Base(m), [0] + keys, 0)
  {
    var all := [0] + keys;
    Rises(keys);
    AscendingFirst(0, keys);
    forall k | k in m ensures k > 0 {
      var i :| 0 <= i < |keys| && keys[i] == k;
    }
    assert all[0..] == all;
    forall k ensures k in all <==> k in Base(m) {
      assert k in all <==> k == 0 || k in keys;
    }
  }

  /** Putting second 0 before the keys when the map does not have it. */
  lemma ZeroFirst(m: Rates, keys: seq<int>)
    requires KeysOf(m, keys)
    ensures 0 in m ==> Walked(Base(m), keys, 0)
    ensures 0 !in m && keys != [] && keys[0] < 0 ==> Walked(Base(m), [0] + keys, 1)
    ensures 0 !in m && (keys == [] || keys[0] > 0) ==> Walked(Base(m), [0] + keys, 0)
    ensures 0 !in m && keys != [] ==> keys[0] != 0
  {
    assert keys != [] ==> keys[0] in keys;
    hide Walked, Base;
    if keys != [] && keys[0] <= 0 {
      WalkedAsIs(m, keys);
    } else {
      WalkedFromZero(m, keys);
    }
  }

  lemma StartKeys(m: Rates, keys: seq<int>) returns (skip: nat)
    requires KeysOf(m, keys)
    ensures var walked := if 0 in m then keys else [0] + keys;
            Walked(Base(m), walked, skip) && forall k :: k in walked ==> k in Started(m)
    ensures forall k :: k in Base(m) ==> k in Started(m) && Started(m)[k] == Base(m)[k]
  {
    ZeroFirst(m, keys);
    skip := if 0 !in m && keys != [] && keys[0] < 0 then 1 else 0;
    hide Walked;
  }

  /** Consecutive keys are the keys around every second between them. */
  lemma Neighbours(m: Rates, keys: seq<int>, j: nat, s: int)
    requires m != map[] && KeysOf(m, keys) && j + 1 < |keys| && keys[j] <= s < keys[j + 1]
    ensures First(m) <= s < Last(m) && Before(m, s) == keys[j] && After(m, s) == keys[j + 1]
  {
    Rises(keys);
    var a, b := keys[j], keys[j + 1];
    assert a in keys && b in keys;
    forall k | k in m ensures k <= a || b <= k {
      var i :| 0 <= i < |keys| && keys[i] == k;
    }
  }

  lemma Ends(m: Rates, keys: seq<int>)
    requires m != map[] && KeysOf(m, keys)
    ensures keys != [] && keys[0] == First(m) && keys[|keys| - 1] == Last(m)
  {
    Rises(keys);
    assert First(m) in keys && Last(m) in keys;
    assert keys[0] in keys && keys[|keys| - 1] in keys;
  }

  // ---------- One segment ----------

  /** The rounded line from a up to n, summed. */
  ghost function LineSum(a: int, u: int, b: int, v: int, n: int): (r: int)
    requires a < b
    decreases n - a
  {
    if n <= a then 0 else LineSum(a, u, b, v, n - 1) + Rounded(a, u, b, v, n - 1)
  }

  /** Fills the seconds between two keys with the rounded line; none when they go backwards. */
  method FillSegment(rates: Rates, a: int, b: int, full: Rates) returns (out: Rates)
    requires a in rates && b in rates && a != b
    ensures forall s :: s in out <==> s in full || a <= s < b
    ensures forall s :: s in out ==>
              out[s] == if a <= s < b then Rounded(a, rates[a], b, rates[b], s) else full[s]
  {
    hide Line, Rounded, Increment;
    var u, v := rates[a], rates[b];
    var increment := Increment(v - u, b - a);
    var current := u as real;
    LineStep(u, v - u, b - a, 0);
    out := full;
    var i := a;
    while i < b
      invariant a <= i && (i > a ==> i <= b)
      invariant current == Line(u, v - u, b - a, i - a)
      invariant forall s :: s in out <==> s in full || a <= s < i
      invariant forall s :: s in out ==> out[s] == if a <= s < i then Rounded(a, u, b, v, s) else full[s]
    {
      LineRounded(a, u, b, v, i);
      LineStep(u, v - u, b - a, i - a);
      out := out[i := current.Floor];
      current := current + increment;
      i := i + 1;
    }
  }

  /** Counts the transactions between two keys; none when they go backwards. */
  method CountSegment(rates: Rates, a: int, b: int, total: int) returns (out: int)
    requires a in rates && b in rates && a != b
    ensures out == total + if a < b then LineSum(a, rates[a], b, rates[b], b) else 0
  {
    hide Line, Rounded, Increment;
    var u, v := rates[a], rates[b];
    var increment := Increment(v - u, b - a);
    var current := u as real;
    LineStep(u, v - u, b - a, 0);
    out := total;
    var i := a;
    while i < b
      invariant a <= i && (i > a ==> i <= b)
      invariant current == Line(u, v - u, b - a, i - a)
      invariant out == total + if a < b then LineSum(a, u, b, v, i) else 0
    {
      LineRounded(a, u, b, v, i);
      LineStep(u, v - u, b - a, i - a);
      out := out + current.Floor;
      current := current + increment;
      i := i + 1;
    }
  }

  // ---------- All segments ----------

  /** The seconds of the expansion before n. */
  ghost predicate Filled(m: Rates, full: Rates, n: int)
    requires m != map[] && n <= Last(m)
  {
    && (forall s :: s in full <==> First(m) <= s < n)
    && (forall s :: First(m) <= s < n ==> full[s] == RateAt(m, s))
  }

  lemma SegmentRates(m: Rates, keys: seq<int>, j: nat)
    requires m != map[] && KeysOf(m, keys) && j + 1 < |keys|
    ensures First(m) <= keys[j] < keys[j + 1] <= Last(m) && keys[j] in m && keys[j + 1] in m
    ensures forall s :: keys[j] <= s < keys[j + 1] ==>
              RateAt(m, s) == Rounded(keys[j], m[keys[j]], keys[j + 1], m[keys[j + 1]], s)
  {
    Rises(keys);
    assert keys[j] in keys && keys[j + 1] in keys;
    forall s | keys[j] <= s < keys[j + 1]
      ensures RateAt(m, s) == Rounded(keys[j], m[keys[j]], keys[j + 1], m[keys[j + 1]], s)
    {
      Neighbours(m, keys, j, s);
    }
  }

  lemma FilledSegment(m: Rates, full: Rates, out: Rates, keys: seq<int>, j: nat)
    requires m != map[] && KeysOf(m, keys) && j + 1 < |keys| && keys[j] in m && keys[j + 1] in m
    requires keys[j] <= Last(m) && Filled(m, full, keys[j]) && keys[j] < keys[j + 1]
    requires forall s :: s in out <==> s in full || keys[j] <= s < keys[j + 1]
    requires forall s :: s in out ==>
               out[s] == if keys[j] <= s < keys[j + 1]
                         then Rounded(keys[j], m[keys[j]], keys[j + 1], m[keys[j + 1]], s) else full[s]
    ensures keys[j + 1] <= Last(m) && Filled(m, out, keys[j + 1])
  {
    SegmentRates(m, keys, j);
    hide RateAt, Rounded, KeysOf;
  }

  lemma {:induction false} SummedSegment(m: Rates, keys: seq<int>, j: nat, n: int)
    requires m != map[] && KeysOf(m, keys) && j + 1 < |keys| && keys[j] in m && keys[j + 1] in m
    requires keys[j] <= n <= keys[j + 1] <= Last(m) && keys[j] < keys[j + 1] && First(m) <= keys[j]
    ensures Sum(Expand(m), First(m), n) ==
            Sum(Expand(m), First(m), keys[j]) + LineSum(keys[j], m[keys[j]], keys[j + 1], m[keys[j + 1]], n)
    decreases n - keys[j]
  {
    hide RateAt, Rounded, KeysOf;
    if n > keys[j] {
      SummedSegment(m, keys, j, n - 1);
      SegmentRates(m, keys, j);
    }
  }

  lemma FilledEnds(m: Rates, full: Rates)
    requires m != map[]
    ensures Filled(m, map[], First(m))
    ensures Filled(m, full, Last(m)) ==> full[Last(m) := m[Last(m)]] == Expand(m)
  {
    if Filled(m, full, Last(m)) {
      assert full[Last(m) := m[Last(m)]] == Expand(m);
    }
  }

  lemma KeyFacts(m: Rates, keys: seq<int>, j: nat)
    requires m != map[] && KeysOf(m, keys) && j < |keys|
    ensures keys[j] in m && First(m) <= keys[j] <= Last(m)
    ensures keys[0] == First(m) && keys[|keys| - 1] == Last(m)
    ensures j + 1 < |keys| ==> keys[j] < keys[j + 1]
  {
    Ends(m, keys);
    Rises(keys);
    assert keys[j] in keys;
  }

  /** The walk over the segments stays inside the map. */
  lemma WalkStep(base: Rates, keys: seq<int>, skip: nat, j: nat)
    requires base != map[] && Walked(base, keys, skip) && j < |keys|
    ensures j >= skip ==> keys[j] in base && First(base) <= keys[j] <= Last(base) && keys[skip..][j - skip] == keys[j]
    ensures j == skip ==> keys[j] == First(base)
    ensures j == |keys| - 1 ==> j >= skip && keys[j] == Last(base)
    ensures j < skip ==> j == 0 && keys[0] == 0 && skip == 1 && |keys| > 1 && keys[1] < 0
    ensures j + 1 < |keys| && j >= skip ==> keys[j] < keys[j + 1] && keys[skip..][j + 1 - skip] == keys[j + 1]
  {
    hide KeysOf, First, Last;
    if j >= skip {
      KeyFacts(base, keys[skip..], j - skip);
    }
  }

  /** Fills every segment in turn, then the last second. */
  method Fill(rates: Rates, keys: seq<int>, ghost base: Rates, ghost skip: nat) returns (full: Rates)
    requires base != map[] && Walked(base, keys, skip)
    requires forall k :: k in keys ==> k in rates
    requires forall k :: k in base ==> k in rates && rates[k] == base[k]
    ensures full == Expand(base)
  {
    hide Filled, KeysOf, Expand, Rounded, Walked, First, Last;
    full := map[];
    WalkedKeys(base, keys, skip);
    FilledEnds(base, map[]);
    WalkStep(base, keys, skip, 0);
    for j := 0 to |keys| - 1
      invariant j < skip ==> full == map[]
      invariant j >= skip ==> keys[j] <= Last(base) && Filled(base, full, keys[j])
    {
      WalkStep(base, keys, skip, j);
      WalkStep(base, keys, skip, j + 1);
      var out := FillSegment(rates, keys[j], keys[j + 1], full);
      if j >= skip {
        FilledSegment(base, full, out, keys[skip..], j - skip);
      } else {
        assert forall s :: s !in out;
        assert out == map[];
      }
      full := out;
    }
    WalkStep(base, keys, skip, |keys| - 1);
    FilledEnds(base, full);
    var last := keys[|keys| - 1];
    full := full[last := rates[last]];
  }

  lemma WalkedKeys(base: Rates, keys: seq<int>, skip: nat)
    requires Walked(base, keys, skip)
    ensures skip < |keys| && KeysOf(base, keys[skip..])
  {}

  /** Counts every segment in turn, then the last second. */
  method Count(rates: Rates, keys: seq<int>, ghost base: Rates, ghost skip: nat) returns (total: int)
    requires base != map[] && Walked(base, keys, skip)
    requires forall k :: k in keys ==> k in rates
    requires forall k :: k in base ==> k in rates && rates[k] == base[k]
    ensures total == Sum(Expand(base), First(base), Last(base) + 1)
  {
    hide KeysOf, Rounded, Walked, First, Last, LineSum, RateAt;
    total := 0;
    WalkedKeys(base, keys, skip);
    WalkStep(base, keys, skip, 0);
    for j := 0 to |keys| - 1
      invariant j < skip ==> total == 0
      invariant j >= skip ==> keys[j] <= Last(base) && total == Sum(Expand(base), First(base), keys[j])
    {
      WalkStep(base, keys, skip, j);
      WalkStep(base, keys, skip, j + 1);
      total := CountSegment(rates, keys[j], keys[j + 1], total);
      if j >= skip {
        SummedSegment(base, keys[skip..], j - skip, keys[j + 1]);
      }
    }
    WalkStep(base, keys, skip, |keys| - 1);
    LastRate(base);
    total := total + rates[keys[|keys| - 1]];
  }

  lemma LastRate(m: Rates)
    requires m != map[]
    ensures Sum(Expand(m), First(m), Last(m) + 1) == Sum(Expand(m), First(m), Last(m)) + m[Last(m)]
  {}

  /** A map of rates, which both operations complete with second 0. */
  class Intervals {
    var rates: Rates

    constructor (m: Rates)
      ensures rates == m
    {
      rates := m;
    }

    /** Sorts the keys, and puts second 0 before them and in the map when it is missing. */
    method Start() returns (keys: seq<int>, ghost skip: nat)
      modifies this
      ensures rates == Started(old(rates)) && Walked(Base(old(rates)), keys, skip)
      ensures forall k :: k in keys ==> k in rates
      ensures forall k :: k in Base(old(rates)) ==> k in rates && rates[k] == Base(old(rates))[k]
    {
      keys := SortSet(rates.Keys, (k: int) => k as real);
      assert KeysOf(rates, keys);
      skip := StartKeys(rates, keys);
      hide KeysOf, Walked, Base;
      if 0 !in rates {
        keys := [0] + keys;
        rates := rates[0 := 0];
      }
    }

    /** The expansion, or an error for an empty map. */
    method GenerateFullIntervals() returns (r: Option<Rates>)
      modifies this
      ensures r.None? <==> old(rates) == map[]
      ensures r.None? ==> rates == old(rates)
      ensures r.Some? ==> rates == Started(old(rates)) && r.value == Expand(Base(old(rates)))
    {
      if |rates| == 0 {
        return None;
      }
      ghost var base := Base(rates);
      var keys, skip := Start();
      var full := Fill(rates, keys, base, skip);
      return Some(full);
    }

    /** The number of transactions; an empty map has none. */
    method GetTotalNumberOfTransactions() returns (total: int)
      modifies this
      ensures rates == Started(old(rates)) && total == Transactions(old(rates))
    {
      ghost var base := Base(rates);
      var keys, skip := Start();
      total := Count(rates, keys, base, skip);
    }
  }
}
