/**
 The arithmetic of the ride-matching contracts: Newton's integer square root, as the
 Solidity contract and as the Move module run it, and the search for the closest driver.

 Solidity words wrap around and division by zero reverts; Move arithmetic aborts when
 it overflows.
 */
module Uber {
  import opened Basics

  // ---------- The reference ----------

  ghost predicate IsRoot(n: nat, r: nat) {
    r * r <= n < (r + 1) * (r + 1)
  }

  /** The integer square root. */
  function Root(n: nat): (r: nat)
    ensures IsRoot(n, r)
  {
    if n == 0 then 0
    else
      var r := Root(n - 1);
      if (r + 1) * (r + 1) <= n then r + 1 else r
  }

  /** Products with the same factor are ordered as the other factors are. */
  lemma Products(a: nat, b: nat, y: nat)
    ensures a < b || b * y <= a * y
  {
    if b <= a {
      assert (a - b) * y >= 0;
    }
  }

  lemma SquareMonotone(a: nat, b: nat)
    requires a <= b
    ensures a * a <= b * b
  {
    Products(b, a, a);
    Products(b, a, b);
  }

  lemma RootUnique(n: nat, r: nat)
    requires IsRoot(n, r)
    ensures r == Root(n)
  {
    var q := Root(n);
    if r < q {
      SquareMonotone(r + 1, q);
    } else if q < r {
      SquareMonotone(q + 1, r);
    }
  }

  // ---------- Newton's step ----------

  /** Twice the mean of y and the quotient by y. */
  function Halves(x: nat, y: nat): (h: nat)
    requires y > 0
  {
    x / y + y
  }

  function Newton(x: nat, y: nat): (z: nat)
    requires y > 0
  {
    Halves(x, y) / 2
  }

  lemma MeanOfSquares(a: int, b: int)
    ensures 4 * (a * b) <= (a + b) * (a + b)
  {
    assert (a + b) * (a + b) == (a - b) * (a - b) + 4 * (a * b);
    assert (a - b) * (a - b) >= 0;
  }

  lemma Quotient(x: nat, y: nat)
    requires y > 0
    ensures (x / y) * y <= x < (x / y + 1) * y
  {
    var q := x / y;
    assert x == q * y + x % y;
    assert (q + 1) * y == q * y + y;
  }

  lemma FourTimes(a: nat)
    ensures (2 * a) * (2 * a) == 4 * (a * a)
  {}

  /** What is below a product is below the square of any bound on the mean of its factors. */
  lemma BelowMean(x: nat, p: nat, y: nat, w: nat)
    requires x < p * y && p + y <= 2 * w
    ensures x < w * w
  {
    MeanOfSquares(p, y);
    SquareMonotone(p + y, 2 * w);
    FourTimes(w);
  }

  /** A step of Newton's method never falls below the root. */
  lemma NewtonAbove(x: nat, y: nat)
    requires y > 0
    ensures x < (Newton(x, y) + 1) * (Newton(x, y) + 1)
  {
    Quotient(x, y);
    BelowMean(x, x / y + 1, y, Newton(x, y) + 1);
  }

  /** When a step no longer goes down, the value is the root. */
  lemma NewtonStops(x: nat, y: nat)
    requires y > 0 && Newton(x, y) >= y && x < (y + 1) * (y + 1)
    ensures IsRoot(x, y)
  {
    var q := x / y;
    Quotient(x, y);
    assert q >= y;
    assert q * y >= y * y;
  }

  lemma RootStays(n: nat, y: nat)
    requires y * y <= n < (y + 2) * y
    ensures IsRoot(n + 1, y)
  {
    assert (y + 1) * (y + 1) == (y + 2) * y + 1;
  }

  lemma RootMoves(n: nat, y: nat)
    requires (y + 2) * y <= n < (y + 1) * (y + 1)
    ensures IsRoot(n + 1, y + 1)
  {
    assert (y + 1) * (y + 1) == (y + 2) * y + 1;
    assert (y + 2) * (y + 2) == (y + 1) * (y + 1) + 2 * y + 3;
  }

  /** From a root y, the quotient is y, y + 1 or y + 2. */
  lemma QuotientOfRoot(n: nat, y: nat)
    requires IsRoot(n, y) && y >= 1
    ensures y <= n / y <= y + 2
  {
    var q := n / y;
    Quotient(n, y);
    Products(y, q + 1, y);
    Products(q, y + 3, y);
    assert (y + 1) * (y + 1) == (y + 2) * y + 1;
    assert (y + 3) * y == (y + 2) * y + y;
  }

  /** The step from the root is the root, or one more when n + 1 is a square. */
  lemma NewtonFromRoot(n: nat, y: nat)
    requires IsRoot(n, y) && y >= 1
    ensures IsRoot(n + 1, Newton(n, y))
  {
    var q := n / y;
    QuotientOfRoot(n, y);
    Quotient(n, y);
    hide IsRoot;
    if q == y + 2 {
      assert Newton(n, y) == y + 1;
      IsRootBounds(n, y);
      RootMoves(n, y);
    } else {
      assert Newton(n, y) == y;
      Products(y + 2, q + 1, y);
      IsRootBounds(n, y);
      RootStays(n, y);
    }
  }

  lemma IsRootBounds(n: nat, y: nat)
    requires IsRoot(n, y)
    ensures y * y <= n < (y + 1) * (y + 1)
  {}

  /** The values of the loop: y is not below the root and z is the next step from it. */
  ghost predicate Descending(x: nat, y: nat, z: nat) {
    1 <= y <= x && z == Newton(x, y) && x < (y + 1) * (y + 1)
  }

  lemma DescendingStarts(x: nat)
    requires x >= 1
    ensures Descending(x, x, (x + 1) / 2)
  {
    assert x / x == 1;
    assert (x + 1) * (x + 1) == x * x + 2 * x + 1;
  }

  /** A step down stays in the loop, and its sum does not exceed x + 1. */
  lemma DescendingStep(x: nat, y: nat, z: nat)
    requires Descending(x, y, z) && z < y
    ensures 1 <= z && Halves(x, z) <= x + 1 && Descending(x, z, Halves(x, z) / 2)
  {
    NewtonAbove(x, y);
    SumOfDivisors(x, z);
  }

  lemma SumOfDivisors(x: nat, z: nat)
    requires 1 <= z <= x
    ensures x / z + z <= x + 1
  {
    var q := x / z;
    Quotient(x, z);
    Products(1, q + 1, z);
    SumBelowProduct(q - 1, z - 1);
  }

  lemma SumBelowProduct(a: nat, b: nat)
    ensures a + b + 1 <= (a + 1) * (b + 1)
  {
    assert (a + 1) * (b + 1) == a * b + a + b + 1;
  }

  /** The loop ends with the root in y; z is the root of x + 1. */
  lemma DescendingEnds(x: nat, y: nat, z: nat)
    requires Descending(x, y, z) && y <= z
    ensures y == Root(x) && z == Root(x + 1)
  {
    NewtonStops(x, y);
    NewtonFromRoot(x, y);
    RootUnique(x, y);
    RootUnique(x + 1, z);
  }

  // ---------- Solidity ----------

  const WORD256: nat := 0x1_0000000000000000_0000000000000000_0000000000000000_0000000000000000

  /** Addition in a contract keeps what fits in a word. */
  function Wrap(v: nat, word: nat): (w: nat)
    requires word > 0
    ensures w < word
    ensures v < word ==> w == v
    ensures v == word ==> w == 0
  {
    v % word
  }

  /** The loop of the contract on words of any size. */
  method WrappingSqrt(x: nat, word: nat) returns (r: Option<nat>)
    requires x < word && word >= 2
    ensures r.Some? <==> x < word - 1
    ensures r.Some? ==> r.value == Root(x)
  {
    hide Root, Newton, Descending, Wrap, Halves;
    var z: nat := Wrap(x + 1, word) / 2;
    var y: nat := x;
    if 1 <= x < word - 1 {
      DescendingStarts(x);
    }
    while z < y
      invariant x == 0 ==> y == z == 0
      invariant 1 <= x < word - 1 ==> Descending(x, y, z)
      invariant x == word - 1 ==> y == x && z == 0
      decreases y
    {
      if x < word - 1 {
        DescendingStep(x, y, z);
      }
      y := z;
      if z == 0 {
        return None;
      }
      z := Wrap(Halves(x, z), word) / 2;
    }
    if x == 0 {
      RootUnique(0, 0);
    } else if x < word - 1 {
      DescendingEnds(x, y, z);
    }
    return Some(y);
  }

  /** The root, for every word but the largest, on which the contract divides by zero. */
  method SoliditySqrt(x: nat) returns (r: Option<nat>)
    requires x < WORD256
    ensures r.Some? <==> x < WORD256 - 1
    ensures r.Some? ==> r.value == Root(x)
  {
    r := WrappingSqrt(x, WORD256);
  }

  // ---------- Move ----------

  const WORD64: nat := 0x1_0000000000000000

  /** What the Move loop returns: it ends with z instead of y. */
  function MoveRoot(n: nat): (r: nat) {
    if n == 0 then 0 else Root(n + 1)
  }

  /** The square root of the Move module; it aborts on the largest word alone. */
  method MoveSqrt(n: nat) returns (r: Option<nat>)
    requires n < WORD64
    ensures r.Some? <==> n + 1 < WORD64
    ensures r.Some? ==> r.value == MoveRoot(n)
  {
    hide Root, Newton, Descending, Halves;
    if n + 1 >= WORD64 {
      return None;
    }
    var z: nat := (n + 1) / 2;
    var y: nat := n;
    if n >= 1 {
      DescendingStarts(n);
    }
    while z < y
      invariant n == 0 ==> y == z == 0
      invariant n >= 1 ==> Descending(n, y, z)
      decreases y
    {
      DescendingStep(n, y, z);
      assert Halves(n, z) < WORD64;
      y := z;
      z := Halves(n, z) / 2;
    }
    if n >= 1 {
      DescendingEnds(n, y, z);
    }
    return Some(z);
  }

  ghost predicate Square(n: nat) {
    exists k: nat :: k * k == n
  }

  /** A number is a square exactly when the root before it, plus one, is its root. */
  lemma SquareExactly(n: nat)
    ensures Square(n + 1) <==> (Root(n) + 1) * (Root(n) + 1) == n + 1
  {
    var r := Root(n);
    hide Root;
    if k: nat :| k * k == n + 1 {
      Products(k, r + 1, k);
      Products(k, r + 1, r + 1);
      Products(r, k, k);
      Products(r, k, r);
    }
  }

  /** From 1 on, the Move root is the root, or one above it exactly when n + 1 is a square. */
  lemma MoveRootError(n: nat)
    ensures MoveRoot(n) == Root(n) + if n > 0 && Square(n + 1) then 1 else 0
  {
    SquareExactly(n);
    hide Square;
  }

  /** The Move root is right exactly for 0 and for the numbers that do not come just before a square. */
  lemma MoveRootExactly(n: nat)
    ensures MoveRoot(n) == Root(n) <==> n == 0 || !Square(n + 1)
  {
    MoveRootError(n);
  }

  /** It is wrong just before every square above 1: of 3, for example, it gives 2. */
  lemma MoveRootWrong(n: nat, k: nat)
    requires k >= 2 && n + 1 == k * k
    ensures MoveRoot(n) == k && Root(n) == k - 1
  {
    hide Root;
    RootOfSquare(k);
    SquareMonotone(2, k);
    assert Square(n + 1);
    MoveRootError(n);
  }

  lemma MoveRootOfThree()
    ensures MoveRoot(3) == 2 && Root(3) == 1
  {
    MoveRootWrong(3, 2);
  }

  lemma RootOfSquare(k: nat)
    ensures Root(k * k) == k
  {
    assert (k + 1) * (k + 1) == k * k + 2 * k + 1;
    RootUnique(k * k, k);
  }

  // ---------- The closest driver ----------

  function Gap(a: nat, b: nat): (r: nat) {
    if a >= b then a - b else b - a
  }

  lemma OppositeSquares(a: nat, b: nat)
    ensures Gap(a, b) * Gap(a, b) == (a - b) * (a - b)
  {
    assert (a - b) * (a - b) == (b - a) * (b - a);
  }

  /** The square of the distance to a driver. */
  function Squared(x: nat, y: nat, cx: nat, cy: nat): (r: nat) {
    Gap(x, cx) * Gap(x, cx) + Gap(y, cy) * Gap(y, cy)
  }

  /** The squared distance is that of the coordinates, whichever is greater. */
  lemma SquaredIs(x: nat, y: nat, cx: nat, cy: nat)
    ensures Squared(x, y, cx, cy) == (x - cx) * (x - cx) + (y - cy) * (y - cy)
  {
    OppositeSquares(x, cx);
    OppositeSquares(y, cy);
    hide Gap;
  }

  function Distance(x: nat, y: nat, cx: nat, cy: nat): (r: nat) {
    MoveRoot(Squared(x, y, cx, cy))
  }

  lemma GapSquareBound(a: nat, b: nat, bound: nat)
    requires a < bound && b < bound
    ensures Gap(a, b) * Gap(a, b) <= bound * bound
  {
    SquareMonotone(Gap(a, b), bound);
  }

  /**
   The first of the drivers at the least distance.  It aborts exactly when, for some
   driver, the squared distance is the largest word or does not fit in one.
   */
  method Find(xs: seq<nat>, ys: seq<nat>, cx: nat, cy: nat) returns (r: Option<nat>)
    requires |xs| == |ys|
    ensures r.None? <==> exists i :: 0 <= i < |xs| && Squared(xs[i], ys[i], cx, cy) + 1 >= WORD64
    ensures r.Some? && xs == [] ==> r.value == 0
    ensures r.Some? && xs != [] ==>
              && r.value < |xs|
              && (forall i :: 0 <= i < |xs| ==>
                    Distance(xs[r.value], ys[r.value], cx, cy) <= Distance(xs[i], ys[i], cx, cy))
              && (forall i :: 0 <= i < r.value ==>
                    Distance(xs[r.value], ys[r.value], cx, cy) < Distance(xs[i], ys[i], cx, cy))
              && (forall i :: 0 <= i < |xs| ==>
                    Squared(xs[r.value], ys[r.value], cx, cy) <=
                    Squared(xs[i], ys[i], cx, cy) + 2 * Distance(xs[i], ys[i], cx, cy))
  {
    hide Root, MoveRoot;
    var minDist, min := 0, 0;
    for i := 0 to |xs|
      invariant forall k :: 0 <= k < i ==> Squared(xs[k], ys[k], cx, cy) + 1 < WORD64
      invariant i == 0 ==> min == 0
      invariant i > 0 ==> min < i && minDist == Distance(xs[min], ys[min], cx, cy)
      invariant forall k :: 0 <= k < i ==> minDist <= Distance(xs[k], ys[k], cx, cy)
      invariant forall k :: 0 <= k < min ==> minDist < Distance(xs[k], ys[k], cx, cy)
    {
      var gx := if xs[i] >= cx then xs[i] - cx else cx - xs[i];
      var gy := if ys[i] >= cy then ys[i] - cy else cy - ys[i];
      SquaresPositive(gx, gy);
      assert Squared(xs[i], ys[i], cx, cy) == gx * gx + gy * gy;
      if gx * gx >= WORD64 || gy * gy >= WORD64 || gx * gx + gy * gy >= WORD64 {
        return None;
      }
      var d := MoveSqrt(gx * gx + gy * gy);
      if d.None? {
        return None;
      }
      if i == 0 {
        minDist := d.value;
      } else if d.value < minDist {
        min := i;
        minDist := d.value;
      }
    }
    hide Squared;
    forall i | 0 <= i < |xs|
      ensures Squared(xs[min], ys[min], cx, cy) <=
              Squared(xs[i], ys[i], cx, cy) + 2 * Distance(xs[i], ys[i], cx, cy)
    {
      NearlyClosest(Squared(xs[min], ys[min], cx, cy), Squared(xs[i], ys[i], cx, cy));
    }
    return Some(min);
  }

  /** A driver that is not farther by the Move root is at most twice the root farther in square. */
  lemma NearlyClosest(m: nat, n: nat)
    requires MoveRoot(m) <= MoveRoot(n)
    ensures m <= n + 2 * MoveRoot(n)
  {
    var d, e := MoveRoot(m), MoveRoot(n);
    SquareMonotone(d + 1, e + 1);
    assert (e + 1) * (e + 1) == e * e + 2 * e + 1;
  }

  /** Of arbitrary numbers no smaller bound holds, for roots from 2 on; not all of them are squared distances. */
  lemma NearlyClosestTight(e: nat)
    requires e >= 2
    ensures MoveRoot(e * e - 1) == MoveRoot(e * e - 1 + 2 * e) == e
  {
    assert (e + 1) * (e + 1) == e * e + 2 * e + 1;
    RootUnique(e * e, e);
    RootUnique(e * e + 2 * e, e);
  }

  lemma SquaresPositive(a: nat, b: nat)
    ensures a * a >= 0 && b * b >= 0
  {}

  /** Coordinates below 10000, as the contract draws them, never abort. */
  lemma SmallCoordinatesFit(x: nat, y: nat, cx: nat, cy: nat)
    requires x < 10000 && y < 10000 && cx < 10000 && cy < 10000
    ensures Squared(x, y, cx, cy) + 1 < WORD64
  {
    GapSquareBound(x, cx, 10000);
    GapSquareBound(y, cy, 10000);
  }
}
