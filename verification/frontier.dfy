/** The furthest-reaching frontiers of the middle-snake search (diff.go:76-140)
and why meeting frontiers split a shortest edit path.

Round `d` of the forward search computes, on every diagonal `k` between the
clamps, the column `Reach(a, b, d, k)` where a `d`-edit path starting at
`(0, 0)` ends furthest along `k`. The reverse search is the same computation on
the reversed sequences: its diagonal `k` is the forward diagonal `|a| - |b| - k`.
This module defines the frontier from the update rule of the source, proves it
is the furthest point of cost at most `d` on its diagonal (`ReachSound` and
`ReachComplete`), and proves that a forward and a reverse frontier that overlap
lie on a shortest path (`Meet`) and that on a shortest path they do overlap
(`Complete`).
 */
module Frontier {
  import opened Clamp
  import opened EditGraph

  /** Follows diagonal `k` from column `x` while the elements match: the
      "snake" loop of the source. An index outside a sequence counts as a
      mismatch. */
  function Slide<T(==)>(a: seq<T>, b: seq<T>, x: int, k: int): (r: int)
    ensures x <= r
    ensures !Matches(a, b, r, r - k)
    decreases |a| - x
  {
    if Matches(a, b, x, x - k) then Slide(a, b, x + 1, k) else x
  }

  /** Where round `d` starts its snake on diagonal `k`: one edge down from the
      previous round's frontier on `k + 1`, or one edge right from the one on
      `k - 1`, whichever reaches further, with the clamps deciding at the ends. */
  ghost function Start<T>(a: seq<T>, b: seq<T>, d: nat, k: int): int
    decreases d, 0
  {
    if d == 0 then 0
    else
      var lo, hi := MinK(|b|, d), MaxKAdjusted(|a|, d);
      if k == lo || (k != hi && Reach(a, b, d - 1, k - 1) < Reach(a, b, d - 1, k + 1))
      then Reach(a, b, d - 1, k + 1)
      else Reach(a, b, d - 1, k - 1) + 1
  }

  /** The frontier of round `d` on diagonal `k`: the end of the snake from `Start`. */
  ghost function Reach<T>(a: seq<T>, b: seq<T>, d: nat, k: int): int
    decreases d, 1
  {
    Slide(a, b, Start(a, b, d, k), k)
  }

  // ---------------------------------------------------------------------------
  // Snakes

  /** A snake that starts inside the graph stays inside and runs over equal elements. */
  lemma {:induction false} SlideRun<T>(a: seq<T>, b: seq<T>, x: int, k: int)
    requires 0 <= x <= |a| && 0 <= x - k <= |b|
    ensures Slide(a, b, x, k) <= |a| && Slide(a, b, x, k) - k <= |b|
    ensures a[x..Slide(a, b, x, k)] == b[x - k..Slide(a, b, x, k) - k]
    decreases |a| - x
  {
    if Matches(a, b, x, x - k) {
      SlideRun(a, b, x + 1, k);
      var r := Slide(a, b, x, k);
      assert a[x..r] == [a[x]] + a[x + 1..r];
      assert b[x - k..r - k] == [b[x - k]] + b[x + 1 - k..r - k];
    }
  }

  /** A snake costs nothing. */
  lemma {:induction false} SlideCost<T>(a: seq<T>, b: seq<T>, x: int, k: int)
    requires 0 <= x && 0 <= x - k
    ensures Cost(a, b, Slide(a, b, x, k), Slide(a, b, x, k) - k) <= Cost(a, b, x, x - k)
    decreases |a| - x
  {
    if Matches(a, b, x, x - k) {
      StepDiagonal(a, b, x, x - k);
      SlideCost(a, b, x + 1, k);
    }
  }

  // ---------------------------------------------------------------------------
  // The frontier is the furthest point of cost at most d

  /** The snake of round `d` starts one edge away from a frontier of round
      `d - 1` on a neighbouring diagonal that is in that round's range. */
  lemma StartFrom<T>(a: seq<T>, b: seq<T>, d: nat, k: int)
    requires |a| >= 1 && |b| >= 1 && d >= 1
    requires InRange(|a|, |b|, d, k)
    ensures || (InRange(|a|, |b|, d - 1, k + 1) && Start(a, b, d, k) == Reach(a, b, d - 1, k + 1))
            || (InRange(|a|, |b|, d - 1, k - 1) && Start(a, b, d, k) == Reach(a, b, d - 1, k - 1) + 1)
  {
    Neighbours(|a|, |b|, d, k);
  }

  /** The start of every snake is a point with `x >= 0` and `y >= 0` that a
      path of at most `d` edits reaches: the search never indexes below zero. */
  lemma {:induction false} StartCost<T>(a: seq<T>, b: seq<T>, d: nat, k: int)
    requires |a| >= 1 && |b| >= 1
    requires InRange(|a|, |b|, d, k)
    ensures 0 <= Start(a, b, d, k) && k <= Start(a, b, d, k)
    ensures Cost(a, b, Start(a, b, d, k), Start(a, b, d, k) - k) <= d
    decreases d, 1
  {
    if d == 0 {
      assert Start(a, b, d, k) == 0 && k == 0;
      assert Cost(a, b, 0, 0) == 0;
    } else {
      StartFrom(a, b, d, k);
      if InRange(|a|, |b|, d - 1, k + 1) && Start(a, b, d, k) == Reach(a, b, d - 1, k + 1) {
        StartCostFromAbove(a, b, d, k);
      } else {
        StartCostFromLeft(a, b, d, k);
      }
    }
  }

  /** `StartCost` when the snake starts one edge down from diagonal `k + 1`. */
  lemma {:induction false} StartCostFromAbove<T>(a: seq<T>, b: seq<T>, d: nat, k: int)
    requires |a| >= 1 && |b| >= 1 && d >= 1
    requires InRange(|a|, |b|, d - 1, k + 1) && Start(a, b, d, k) == Reach(a, b, d - 1, k + 1)
    ensures 0 <= Start(a, b, d, k) && k <= Start(a, b, d, k)
    ensures Cost(a, b, Start(a, b, d, k), Start(a, b, d, k) - k) <= d
    decreases d, 0
  {
    ReachSound(a, b, d - 1, k + 1);
    var r := Reach(a, b, d - 1, k + 1);
    StepUp(a, b, r, r - k - 1);
  }

  /** `StartCost` when the snake starts one edge right of diagonal `k - 1`. */
  lemma {:induction false} StartCostFromLeft<T>(a: seq<T>, b: seq<T>, d: nat, k: int)
    requires |a| >= 1 && |b| >= 1 && d >= 1
    requires InRange(|a|, |b|, d - 1, k - 1) && Start(a, b, d, k) == Reach(a, b, d - 1, k - 1) + 1
    ensures 0 <= Start(a, b, d, k) && k <= Start(a, b, d, k)
    ensures Cost(a, b, Start(a, b, d, k), Start(a, b, d, k) - k) <= d
    decreases d, 0
  {
    ReachSound(a, b, d - 1, k - 1);
    var r := Reach(a, b, d - 1, k - 1);
    StepRight(a, b, r, r - k + 1);
  }

  /** Every frontier names a point with `x >= 0` and `y >= 0` that a path of at
      most `d` edits reaches. */
  lemma {:induction false} ReachSound<T>(a: seq<T>, b: seq<T>, d: nat, k: int)
    requires |a| >= 1 && |b| >= 1
    requires InRange(|a|, |b|, d, k)
    ensures 0 <= Start(a, b, d, k) && k <= Start(a, b, d, k)
    ensures Start(a, b, d, k) <= Reach(a, b, d, k)
    ensures Cost(a, b, Reach(a, b, d, k), Reach(a, b, d, k) - k) <= d
    decreases d, 2
  {
    StartCost(a, b, d, k);
    SlideCost(a, b, Start(a, b, d, k), k);
  }

  /** The update rule takes the better neighbour except at the clamps: the
      start is one column right of the frontier on `k - 1` unless `k` is the
      lower clamp, and on or beyond the frontier on `k + 1` unless `k` is only
      the upper clamp. */
  lemma StartDominates<T>(a: seq<T>, b: seq<T>, d: nat, k: int)
    requires d >= 1
    ensures k != MinK(|b|, d) ==> Reach(a, b, d - 1, k - 1) + 1 <= Start(a, b, d, k)
    ensures k != MaxKAdjusted(|a|, d) || k == MinK(|b|, d) ==>
              Reach(a, b, d - 1, k + 1) <= Start(a, b, d, k)
  {
  }

  /** A point that the snake on diagonal `k` could still extend is not where
      the snake stopped. */
  lemma PastSnake<T>(a: seq<T>, b: seq<T>, d: nat, k: int, x: int)
    requires x - 1 <= Reach(a, b, d, k)
    requires Matches(a, b, x - 1, x - 1 - k)
    ensures x <= Reach(a, b, d, k)
  {
    var s := Start(a, b, d, k);
    assert Reach(a, b, d, k) == Slide(a, b, s, k);
  }

  /** Every point inside the graph that a path of at most `d` edits reaches lies
      no further along its diagonal than the frontier: the frontier is the
      furthest such point. */
  lemma {:induction false} ReachComplete<T>(a: seq<T>, b: seq<T>, d: nat, k: int, x: int)
    requires |a| >= 1 && |b| >= 1
    requires InRange(|a|, |b|, d, k)
    requires 0 <= x <= |a| && 0 <= x - k <= |b|
    requires Cost(a, b, x, x - k) <= d
    ensures x <= Reach(a, b, d, k)
    decreases d, x, 2
  {
    var y := x - k;
    ReachSound(a, b, d, k);
    if x == 0 || y == 0 {
      return;
    }
    LastEdge(a, b, x, y, d);
    if Matches(a, b, x - 1, y - 1) && Cost(a, b, x - 1, y - 1) <= d {
      ReachComplete(a, b, d, k, x - 1);
      PastSnake(a, b, d, k, x);
    } else if Cost(a, b, x - 1, y) + 1 <= d {
      FromLeft(a, b, d, k, x);
    } else {
      FromBelow(a, b, d, k, x);
    }
  }

  /** `ReachComplete` when the last edge is horizontal. */
  lemma {:induction false} FromLeft<T>(a: seq<T>, b: seq<T>, d: nat, k: int, x: int)
    requires |a| >= 1 && |b| >= 1
    requires InRange(|a|, |b|, d, k)
    requires 1 <= x <= |a| && 0 <= x - k <= |b|
    requires Cost(a, b, x - 1, x - k) + 1 <= d
    ensures x <= Start(a, b, d, k)
    decreases d, x, 1
  {
    if k == MinK(|b|, d) {
      FromLeftAtLowerClamp(a, b, d, k, x);
    } else {
      Neighbours(|a|, |b|, d, k);
      StartDominates(a, b, d, k);
      ReachComplete(a, b, d - 1, k - 1, x - 1);
    }
  }

  /** Only `(1, m)` reaches the lowest diagonal from the left, and `(1, m - 1)`
      reaches the diagonal above it as cheaply. */
  lemma {:induction false} FromLeftAtLowerClamp<T>(a: seq<T>, b: seq<T>, d: nat, k: int, x: int)
    requires |a| >= 1 && |b| >= 1 && d >= 1
    requires InRange(|a|, |b|, d, k) && k == MinK(|b|, d)
    requires 1 <= x <= |a| && 0 <= x - k <= |b|
    requires Cost(a, b, x - 1, x - k) + 1 <= d
    ensures x <= Start(a, b, d, k)
    decreases d, x, 0
  {
    var m := |b|;
    Neighbours(|a|, m, d, k);
    StartDominates(a, b, d, k);
    CostBounds(a, b, x - 1, x - k);
    assert x == 1 && x - k == m;
    StepRight(a, b, 0, m - 1);
    ReachComplete(a, b, d - 1, k + 1, 1);
  }

  /** `ReachComplete` when the last edge is vertical and no horizontal edge
      does as well. At the upper clamp only `(n, 1)` could be reached this way,
      and `(n - 1, 1)` reaches it from the left as cheaply. */
  lemma {:induction false} FromBelow<T>(a: seq<T>, b: seq<T>, d: nat, k: int, x: int)
    requires |a| >= 1 && |b| >= 1
    requires InRange(|a|, |b|, d, k)
    requires 1 <= x <= |a| && 1 <= x - k <= |b|
    requires Cost(a, b, x, x - k - 1) + 1 <= d
    requires Cost(a, b, x - 1, x - k) + 1 > d
    ensures x <= Start(a, b, d, k)
    decreases d, x, 1
  {
    var n, m := |a|, |b|;
    var y := x - k;
    Neighbours(n, m, d, k);
    StartDominates(a, b, d, k);
    CostBounds(a, b, x, y - 1);
    ReachComplete(a, b, d - 1, k + 1, x);
  }

  /** In the first round the snake starts right after the common prefix: one
      column right of it on diagonal 1, one row below it on diagonal -1. */
  lemma FirstRound<T>(a: seq<T>, b: seq<T>)
    requires |a| >= 1 && |b| >= 1
    ensures Start(a, b, 1, 1) == Slide(a, b, 0, 0) + 1
    ensures Start(a, b, 1, -1) == Slide(a, b, 0, 0)
    ensures Slide(a, b, 0, 0) <= |a| && Slide(a, b, 0, 0) <= |b|
    ensures a[..Slide(a, b, 0, 0)] == b[..Slide(a, b, 0, 0)]
  {
    SlideRun(a, b, 0, 0);
  }

  // ---------------------------------------------------------------------------
  // Meeting frontiers

  /** A point of cost at most `c` outside the graph, on a diagonal at most `e`
      away from the diagonal of `(|a|, |b|)`, shows a path two edits shorter
      than `c + e`. */
  lemma Overshoot<T>(a: seq<T>, b: seq<T>, u: int, k: int, c: int, e: int)
    requires 0 <= u && 0 <= u - k
    requires Cost(a, b, u, u - k) <= c
    requires |a| - |b| - k <= e && k - (|a| - |b|) <= e
    requires u > |a| || u - k > |b|
    ensures Dist(a, b) + 2 <= c + e
  {
    var n, m, v := |a|, |b|, u - k;
    if u > n && v >= m {
      BeyondABy(a, b, v, u - n);
      BeyondBBy(a, b, n, v - m);
    } else if u > n {
      BeyondABy(a, b, v, u - n);
      UpBy(a, b, n, v, m - v);
    } else {
      BeyondBBy(a, b, u, v - m);
      RightBy(a, b, u, m, n - u);
    }
  }

  /** A point of cost at most `c` on a diagonal at most `e` away from the
      diagonal of `(|a|, |b|)` lies inside the graph when the distance is at
      least `c + e`. */
  lemma Inside<T>(a: seq<T>, b: seq<T>, u: int, k: int, c: int, e: int)
    requires 0 <= u && 0 <= u - k
    requires Cost(a, b, u, u - k) <= c
    requires |a| - |b| - k <= e && k - (|a| - |b|) <= e
    requires c + e <= Dist(a, b)
    ensures u <= |a| && u - k <= |b|
  {
    if u > |a| || u - k > |b| {
      Overshoot(a, b, u, k, c, e);
    }
  }

  /** The reverse frontier `R` on the reverse partner of diagonal `k` is the
      point `(|a| - R, |a| - R - k)`; walking back to it along `k` from a point
      `(u, u - k)` at or beyond it costs nothing in the reversed graph. */
  lemma ReverseAlong<T>(a: seq<T>, b: seq<T>, k: int, u: int, R: int)
    requires 0 <= u <= |a| && 0 <= u - k <= |b|
    requires 0 <= R <= |a| && 0 <= R - (|a| - |b| - k) <= |b|
    requires u + R >= |a|
    ensures CostFrom(a, b, u, u - k) <= Cost(Rev(a), Rev(b), R, R - (|a| - |b| - k))
  {
    var n, m := |a|, |b|;
    DiagonalMonotoneBy(Rev(a), Rev(b), n - u, m - (u - k), u - (n - R));
  }

  /** A snake inside the graph runs over equal elements and costs nothing to
      the end either. */
  lemma SnakeEnds<T>(a: seq<T>, b: seq<T>, x: int, k: int)
    requires 0 <= x && 0 <= x - k
    requires Slide(a, b, x, k) <= |a| && Slide(a, b, x, k) - k <= |b|
    ensures a[x..Slide(a, b, x, k)] == b[x - k..Slide(a, b, x, k) - k]
    ensures CostFrom(a, b, x, x - k) <= CostFrom(a, b, Slide(a, b, x, k), Slide(a, b, x, k) - k)
  {
    var n, m := |a|, |b|;
    var u := Slide(a, b, x, k);
    SlideRun(a, b, x, k);
    RevSlice(a, n - u, n - x);
    RevSlice(b, m - (u - k), m - (x - k));
    SnakeFree(Rev(a), Rev(b), n - u, m - (u - k), u - x);
  }

  /** Soundness of the overlap test. A forward snake from `(x, x - k)` of cost
      at most `d1` and a reverse frontier `R` of cost at most `d2` on the same
      diagonal that overlap (`u + R >= |a|`) can only occur when the distance is
      `d1 + d2` if it is at least that; then the snake lies inside the graph,
      on a shortest path, `d1` edits from the start and `d2` from the end. */
  lemma Meet<T>(a: seq<T>, b: seq<T>, d1: int, d2: int, k: int, x: int, R: int)
    requires 0 <= x && 0 <= x - k && Cost(a, b, x, x - k) <= d1
    requires -d1 <= k <= d1
    requires -d2 <= |a| - |b| - k <= d2
    requires 0 <= R && 0 <= R - (|a| - |b| - k)
    requires Cost(Rev(a), Rev(b), R, R - (|a| - |b| - k)) <= d2
    requires Slide(a, b, x, k) + R >= |a|
    requires d1 + d2 <= Dist(a, b)
    ensures Dist(a, b) == d1 + d2
    ensures 0 <= x <= Slide(a, b, x, k) <= |a|
    ensures 0 <= x - k <= Slide(a, b, x, k) - k <= |b|
    ensures a[x..Slide(a, b, x, k)] == b[x - k..Slide(a, b, x, k) - k]
    ensures Cost(a, b, x, x - k) == d1
    ensures CostFrom(a, b, Slide(a, b, x, k), Slide(a, b, x, k) - k) == d2
  {
    hide Slide, Cost, CostFrom, Dist, Rev;
    var kk := |a| - |b| - k;
    var u := Slide(a, b, x, k);
    SlideCost(a, b, x, k);
    Inside(a, b, u, k, d1, d2);
    DistRev(a, b);
    Inside(Rev(a), Rev(b), R, kk, d2, d1);
    ReverseAlong(a, b, k, u, R);
    SnakeEnds(a, b, x, k);
    Through(a, b, u, u - k);
    Through(a, b, x, x - k);
  }

  /** A point inside the graph lies on a diagonal in the range of its cost. */
  lemma PointDiagonal<T>(a: seq<T>, b: seq<T>, x: nat, y: nat)
    requires x <= |a| && y <= |b|
    ensures InRange(|a|, |b|, Cost(a, b, x, y), x - y)
  {
    CostBounds(a, b, x, y);
    CostParity(a, b, x, y);
    DiagonalOfCost(|a|, |b|, Cost(a, b, x, y), x, y);
  }

  lemma DiagonalOfCost(n: int, m: int, c: int, x: int, y: int)
    requires 0 <= x <= n && 0 <= y <= m
    requires x - y <= c && y - x <= c
    requires c % 2 == (x + y) % 2
    ensures InRange(n, m, c, x - y)
  {
  }

  /** ... and on a reverse diagonal in the range of its cost to the end. */
  lemma PointDiagonals<T>(a: seq<T>, b: seq<T>, x: nat, y: nat)
    requires x <= |a| && y <= |b|
    ensures InRange(|a|, |b|, Cost(a, b, x, y), x - y)
    ensures InRange(|a|, |b|, CostFrom(a, b, x, y), (|a| - x) - (|b| - y))
  {
    PointDiagonal(a, b, x, y);
    PointDiagonal(Rev(a), Rev(b), |a| - x, |b| - y);
  }

  /** A point on a shortest path with `d1` edits before it and `d2` after it,
      kept off the corners `(|a|, 0)` and `(0, |b|)` when `d1 == d2 + 1`. */
  lemma PickPoint<T>(a: seq<T>, b: seq<T>, d1: nat, d2: nat) returns (x: nat, y: nat)
    requires |a| >= 1 && |b| >= 1
    requires Dist(a, b) == d1 + d2
    requires d1 == d2 || d1 == d2 + 1
    ensures x <= |a| && y <= |b|
    ensures Cost(a, b, x, y) == d1 && CostFrom(a, b, x, y) == d2
    ensures d1 == d2 + 1 ==> x - y != |a| && x - y != -|b|
  {
    var n, m := |a|, |b|;
    x, y := SplitPoint(a, b, d1);
    if d1 == d2 + 1 && x == n && y == 0 {
      StepUp(a, b, n - 1, 0);
      CostFromSteps(a, b, n - 1, 1);
      assert CostFrom(a, b, n, 1) == m - 1;
      x, y := n - 1, 1;
    } else if d1 == d2 + 1 && x == 0 && y == m {
      StepRight(a, b, 0, m - 1);
      CostFromSteps(a, b, 1, m - 1);
      assert CostFrom(a, b, 1, m) == n - 1;
      x, y := 1, m - 1;
    }
    Through(a, b, x, y);
    CostBounds(a, b, x, y);
  }

  /** Completeness of the overlap test: when the distance is `d1 + d2` with
      `d1` equal to `d2` or one more, some diagonal in round `d1`'s range, whose
      reverse partner lies between round `d1`'s clamps, has overlapping
      frontiers. */
  lemma Complete<T>(a: seq<T>, b: seq<T>, d1: nat, d2: nat) returns (k: int)
    requires |a| >= 1 && |b| >= 1
    requires Dist(a, b) == d1 + d2
    requires d1 == d2 || d1 == d2 + 1
    ensures InRange(|a|, |b|, d1, k)
    ensures InRange(|a|, |b|, d2, |a| - |b| - k)
    ensures MinK(|b|, d1) <= |a| - |b| - k <= MaxKAdjusted(|a|, d1)
    ensures Reach(a, b, d1, k) + Reach(Rev(a), Rev(b), d2, |a| - |b| - k) >= |a|
  {
    hide Start, Reach, Slide, Cost, Dist, Rev;
    var n, m := |a|, |b|;
    var x, y := PickPoint(a, b, d1, d2);
    k := x as int - y as int;
    var kk := n - m - k;
    PointDiagonals(a, b, x, y);
    ReachComplete(a, b, d1, k, x);
    ReachComplete(Rev(a), Rev(b), d2, kk, n - x);
    PartnerBetweenClamps(n, m, d1, d2, kk);
  }
}
