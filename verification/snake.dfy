/** The middle-snake search `middlesnake` (diff.go:65-144) over two frontier
arrays, and its correctness.

The arrays `v0` (forward) and `v1` (reverse) of length `n + m + 1` hold one
frontier column per diagonal `k`, at index `m + k`. Round `d` first sweeps the
forward diagonals upwards from `MinK` and then the reverse diagonals downwards
from the upper clamp. After each snake it tests whether the snake overlaps
the opposite search's frontier on the partner diagonal `(n - m) - k`; the
first overlap found is returned together with the length of the path it lies
on. The search is modelled once, parameterised by the upper clamp: `AsWritten`
is the source's `maxk`, `ParityAdjusted` the corrected clamp `MiddleSnake`
uses.
 */
module Snakes {
  import opened Clamp
  import opened EditGraph
  import opened Frontier

  /** The five results of `middlesnake`: the snake from `(x, y)` to `(u, v)`
      and the length `d` of the path through it; `d == -1` when no round found
      an overlap. */
  datatype Snake = Snake(x: int, y: int, u: int, v: int, d: int)

  /** The outcome of one sweep: a snake, or the updated frontier array. */
  datatype Sweep = Found(snake: Snake) | Continue(v: seq<int>)

  /** Where the snake on diagonal `k` starts, read from the frontier array of
      the previous round at `i - 1` and `i + 1` (`i == m + k`). */
  function SnakeStart(v: seq<int>, i: int, lo: int, hi: int, k: int): int
    requires 0 <= i < |v|
    requires k != lo ==> 1 <= i
    requires k == lo || k != hi ==> i + 1 < |v|
  {
    if k == lo || (k != hi && v[i - 1] < v[i + 1]) then v[i + 1] else v[i - 1] + 1
  }

  /** The forward sweep of round `d` from diagonal `k` upwards (diff.go:80-109). */
  function Forward<T(==)>(c: UpperClamp, a: seq<T>, b: seq<T>, v0: seq<int>, v1: seq<int>, d: nat, k: int): (r: Sweep)
    requires |a| >= 1 && |b| >= 1
    requires |v0| == |a| + |b| + 1 && |v1| == |v0|
    requires MinK(|b|, d) <= k
    ensures r.Continue? ==> |r.v| == |v0|
    ensures r.Found? ==> r.snake.d == 2 * d - 1
    ensures r.Found? ==> r.snake.x <= r.snake.u && r.snake.u - r.snake.x == r.snake.v - r.snake.y
    decreases Upper(c, |a|, d) - k + 2
  {
    var n, m := |a|, |b|;
    var lo, hi := MinK(m, d), Upper(c, n, d);
    if k > hi then Continue(v0)
    else
      var i := m + k;
      var x := SnakeStart(v0, i, lo, hi, k);
      var y := x - k;
      var u := Slide(a, b, x, k);
      var v := u - k;
      var delta := n - m;
      if delta % 2 == 1 && lo <= delta - k <= hi && u + v1[m + (delta - k)] >= n
      then Found(Snake(x, y, u, v, 2 * d - 1))
      else Forward(c, a, b, v0[i := u], v1, d, k + 2)
  }

  /** The reverse sweep of round `d` from diagonal `k` downwards
      (diff.go:111-140). Its snakes run over the reversed sequences; a snake
      found is translated back to the original coordinates. */
  function Backward<T(==)>(c: UpperClamp, a: seq<T>, b: seq<T>, v0: seq<int>, v1: seq<int>, d: nat, k: int): (r: Sweep)
    requires |a| >= 1 && |b| >= 1
    requires |v0| == |a| + |b| + 1 && |v1| == |v0|
    requires k <= Upper(c, |a|, d)
    ensures r.Continue? ==> |r.v| == |v1|
    ensures r.Found? ==> r.snake.d == 2 * d
    ensures r.Found? ==> r.snake.x <= r.snake.u && r.snake.u - r.snake.x == r.snake.v - r.snake.y
    decreases k - MinK(|b|, d) + 2
  {
    var n, m := |a|, |b|;
    var lo, hi := MinK(m, d), Upper(c, n, d);
    if k < lo then Continue(v1)
    else
      var j := m + k;
      var x := SnakeStart(v1, j, lo, hi, k);
      var y := x - k;
      var u := Slide(Rev(a), Rev(b), x, k);
      var v := u - k;
      var delta := n - m;
      if delta % 2 == 0 && lo <= delta - k <= hi && u + v0[m + (delta - k)] >= n
      then Found(Snake(n - u, m - v, n - x, m - y, 2 * d))
      else Backward(c, a, b, v0, v1[j := u], d, k - 2)
  }

  /** Rounds `d`, `d + 1`, ... of the search (diff.go:76-143). */
  function Search<T(==)>(c: UpperClamp, a: seq<T>, b: seq<T>, v0: seq<int>, v1: seq<int>, d: nat): (r: Snake)
    requires |a| >= 1 && |b| >= 1
    requires |v0| == |a| + |b| + 1 && |v1| == |v0|
    ensures r.d == -1 || r.d >= 2 * d - 1
    ensures r.d != -1 ==> r.x <= r.u && r.u - r.x == r.v - r.y
    decreases (|a| + |b| + 1) / 2 + 1 - d
  {
    var n, m := |a|, |b|;
    if d > (n + m + 1) / 2 then Snake(0, 0, 0, 0, -1)
    else
      match Forward(c, a, b, v0, v1, d, MinK(m, d))
      case Found(s) => s
      case Continue(w0) =>
        match Backward(c, a, b, w0, v1, d, Upper(c, n, d))
        case Found(s) => s
        case Continue(w1) => Search(c, a, b, w0, w1, d + 1)
  }

  function Zeros(len: nat): (r: seq<int>)
    ensures |r| == len && forall i :: 0 <= i < len ==> r[i] == 0
  {
    seq(len, i => 0)
  }

  /** `middlesnake` with the given upper clamp, on fresh zeroed arrays. */
  function MiddleSnakeWith<T(==)>(c: UpperClamp, a: seq<T>, b: seq<T>): (r: Snake)
    requires |a| >= 1 && |b| >= 1
    ensures r.d != -1 ==> r.x <= r.u && r.u - r.x == r.v - r.y
  {
    Search(c, a, b, Zeros(|a| + |b| + 1), Zeros(|a| + |b| + 1), 0)
  }

  // ---------------------------------------------------------------------------
  // What a middle snake is

  /** The snake `s` lies on a shortest edit path of `a` into `b`: `s.d` is the
      distance, the snake is a run of matches inside the graph, `(d + 1) / 2`
      edits lie before it and `d / 2` after it. When `d == 1` the point
      `(x, y)` ends the single edit: the element inserted is `a[x - 1]` when
      `a` is longer, the element deleted `b[y - 1]` otherwise. */
  ghost predicate IsMiddleSnake<T>(a: seq<T>, b: seq<T>, s: Snake) {
    && s.d == Dist(a, b)
    && 0 <= s.x <= s.u <= |a| && 0 <= s.y <= s.v <= |b|
    && s.u - s.x == s.v - s.y
    && a[s.x..s.u] == b[s.y..s.v]
    && Dist(a[..s.x], b[..s.y]) == (s.d + 1) / 2
    && Dist(a[s.u..], b[s.v..]) == s.d / 2
    && (s.d == 1 && |a| > |b| ==> 1 <= s.x && s.x == s.y + 1 && a[..s.x - 1] == b[..s.y])
    && (s.d == 1 && |a| <= |b| ==> 1 <= s.y && s.y == s.x + 1 && a[..s.x] == b[..s.y - 1])
  }

  // ---------------------------------------------------------------------------
  // Frontier arrays

  /** `v` holds round `d`'s frontier on every diagonal in that round's range. */
  ghost predicate HoldsRound<T>(a: seq<T>, b: seq<T>, v: seq<int>, d: nat) {
    && |v| == |a| + |b| + 1
    && forall k :: InRange(|a|, |b|, d, k) ==> v[|b| + k] == Reach(a, b, d, k)
  }

  /** `v` is ready for round `d`: it holds round `d - 1`, or, before round 0,
      a zero where round 0 reads. */
  ghost predicate Prepared<T>(a: seq<T>, b: seq<T>, v: seq<int>, d: nat) {
    && |v| == |a| + |b| + 1
    && (d == 0 ==> |b| + 1 < |v| && v[|b| + 1] == 0)
    && (d >= 1 ==> HoldsRound(a, b, v, d - 1))
  }

  /** The forward sweep has written round `d` below diagonal `k`. */
  ghost predicate SweptBelow<T>(a: seq<T>, b: seq<T>, v: seq<int>, d: nat, k: int) {
    && |v| == |a| + |b| + 1
    && forall j :: InRange(|a|, |b|, d, j) && j < k ==> v[|b| + j] == Reach(a, b, d, j)
  }

  /** The reverse sweep has written round `d` above diagonal `k`. */
  ghost predicate SweptAbove<T>(a: seq<T>, b: seq<T>, v: seq<int>, d: nat, k: int) {
    && |v| == |a| + |b| + 1
    && forall j :: InRange(|a|, |b|, d, j) && j > k ==> v[|b| + j] == Reach(a, b, d, j)
  }

  /** The forward overlap test of round `d` succeeds on diagonal `k`. */
  ghost predicate FiresForward<T>(a: seq<T>, b: seq<T>, d: nat, k: int) {
    var n, m, delta := |a|, |b|, |a| - |b|;
    && d >= 1 && delta % 2 == 1 && InRange(n, m, d, k)
    && MinK(m, d) <= delta - k <= MaxKAdjusted(n, d)
    && Slide(a, b, Start(a, b, d, k), k) + Reach(Rev(a), Rev(b), d - 1, delta - k) >= n
  }

  /** The reverse overlap test of round `d` succeeds on diagonal `k`. */
  ghost predicate FiresBackward<T>(a: seq<T>, b: seq<T>, d: nat, k: int) {
    var n, m, delta := |a|, |b|, |a| - |b|;
    && delta % 2 == 0 && InRange(n, m, d, k)
    && MinK(m, d) <= delta - k <= MaxKAdjusted(n, d)
    && Slide(Rev(a), Rev(b), Start(Rev(a), Rev(b), d, k), k) + Reach(a, b, d, delta - k) >= n
  }

  /** The start the sweep reads from a prepared array is the frontier rule's start. */
  lemma StartFromArray<T>(a: seq<T>, b: seq<T>, v: seq<int>, d: nat, k: int)
    requires |a| >= 1 && |b| >= 1
    requires InRange(|a|, |b|, d, k) && Prepared(a, b, v, d)
    ensures SnakeStart(v, |b| + k, MinK(|b|, d), MaxKAdjusted(|a|, d), k) == Start(a, b, d, k)
  {
    if d >= 1 {
      Neighbours(|a|, |b|, d, k);
    }
  }

  /** Writing any column on a diagonal of round `d` keeps round `d - 1`'s
      entries, which lie on diagonals of the other parity. */
  lemma WriteKeepsPrepared<T>(a: seq<T>, b: seq<T>, v: seq<int>, d: nat, k: int, u: int)
    requires |a| >= 1 && |b| >= 1
    requires InRange(|a|, |b|, d, k) && Prepared(a, b, v, d)
    ensures Prepared(a, b, v[|b| + k := u], d)
  {
    var n, m := |a|, |b|;
    var w := v[m + k := u];
    if d >= 1 {
      var e: nat := d - 1;
      forall j | InRange(n, m, e, j)
        ensures w[m + j] == Reach(a, b, e, j)
      {
        RoundsDisjoint(n, m, d, k, j);
      }
    }
  }

  /** Writing round `d`'s frontier on diagonal `k` extends the upward sweep. */
  lemma WriteExtendsBelow<T>(a: seq<T>, b: seq<T>, v: seq<int>, d: nat, k: int)
    requires InRange(|a|, |b|, d, k) && SweptBelow(a, b, v, d, k)
    ensures SweptBelow(a, b, v[|b| + k := Reach(a, b, d, k)], d, k + 2)
  {
    var w := v[|b| + k := Reach(a, b, d, k)];
    forall j | InRange(|a|, |b|, d, j) && j < k + 2
      ensures w[|b| + j] == Reach(a, b, d, j)
    {
      if j != k {
        SameRoundApart(|a|, |b|, d, k, j);
      }
    }
  }

  /** Writing round `d`'s frontier on diagonal `k` extends the downward sweep. */
  lemma WriteExtendsAbove<T>(a: seq<T>, b: seq<T>, v: seq<int>, d: nat, k: int)
    requires InRange(|a|, |b|, d, k) && SweptAbove(a, b, v, d, k)
    ensures SweptAbove(a, b, v[|b| + k := Reach(a, b, d, k)], d, k - 2)
  {
    var w := v[|b| + k := Reach(a, b, d, k)];
    forall j | InRange(|a|, |b|, d, j) && j > k - 2
      ensures w[|b| + j] == Reach(a, b, d, j)
    {
      if j != k {
        SameRoundApart(|a|, |b|, d, k, j);
      }
    }
  }

  /** The source's forward test of a snake ending in column `u`, read from
      the reverse array, compares `u` with the reverse frontier of round
      `d - 1` on the partner diagonal. */
  lemma ForwardTest<T>(a: seq<T>, b: seq<T>, v1: seq<int>, d: nat, k: int, u: int)
    requires |a| >= 1 && |b| >= 1 && |v1| == |a| + |b| + 1
    requires InRange(|a|, |b|, d, k)
    requires d >= 1 ==> HoldsRound(Rev(a), Rev(b), v1, d - 1)
    ensures var n, m, kk := |a|, |b|, |a| - |b| - k;
            ((n - m) % 2 == 1 && MinK(m, d) <= kk <= MaxKAdjusted(n, d) && u + v1[m + kk] >= n)
            <==> (d >= 1 && (n - m) % 2 == 1 && MinK(m, d) <= kk <= MaxKAdjusted(n, d)
                  && u + Reach(Rev(a), Rev(b), d - 1, kk) >= n)
  {
    var n, m := |a|, |b|;
    var kk := n - m - k;
    if (n - m) % 2 == 1 {
      OddPartner(n, m, d, k);
      if d >= 1 && MinK(m, d) <= kk <= MaxKAdjusted(n, d) {
        assert InRange(n, m, d - 1, kk);
        assert v1[m + kk] == Reach(Rev(a), Rev(b), d - 1, kk);
      }
    }
  }

  /** The source's reverse test of a snake ending in reversed column `u`,
      read from the forward array, compares `u` with the forward frontier of
      round `d` on the partner diagonal. */
  lemma BackwardTest<T>(a: seq<T>, b: seq<T>, v0: seq<int>, d: nat, k: int, u: int)
    requires |a| >= 1 && |b| >= 1
    requires InRange(|a|, |b|, d, k)
    requires HoldsRound(a, b, v0, d)
    ensures var n, m, kk := |a|, |b|, |a| - |b| - k;
            ((n - m) % 2 == 0 && MinK(m, d) <= kk <= MaxKAdjusted(n, d) && u + v0[m + kk] >= n)
            <==> ((n - m) % 2 == 0 && MinK(m, d) <= kk <= MaxKAdjusted(n, d)
                  && u + Reach(a, b, d, kk) >= n)
  {
    var n, m := |a|, |b|;
    var kk := n - m - k;
    if (n - m) % 2 == 0 {
      EvenPartner(n, m, d, k);
      if MinK(m, d) <= kk <= MaxKAdjusted(n, d) {
        assert InRange(n, m, d, kk);
        assert v0[m + kk] == Reach(a, b, d, kk);
      }
    }
  }

  // ---------------------------------------------------------------------------
  // Overlapping frontiers give a middle snake

  /** A snake inside the graph with `d1` edits before it and `d2` after it on
      a path of length `d1 + d2 == Dist` is a middle snake when `d1` is `d2`
      or one more: the distance splits between the prefixes before it and the
      suffixes after it. */
  lemma Assemble<T>(a: seq<T>, b: seq<T>, x: int, y: int, u: int, v: int, d1: nat, d2: nat, d: int)
    requires 0 <= x <= u <= |a| && 0 <= y <= v <= |b|
    requires u - x == v - y && a[x..u] == b[y..v]
    requires Cost(a, b, x, y) == d1 && CostFrom(a, b, u, v) == d2
    requires d == d1 + d2 && Dist(a, b) == d && (d1 == d2 || d1 == d2 + 1)
    requires d == 1 && |a| > |b| ==> 1 <= x && x == y + 1 && a[..x - 1] == b[..y]
    requires d == 1 && |a| <= |b| ==> 1 <= y && y == x + 1 && a[..x] == b[..y - 1]
    ensures IsMiddleSnake(a, b, Snake(x, y, u, v, d))
  {
    CostIsPrefixDist(a, b, x, y);
    CostFromIsSuffixDist(a, b, u, v);
    assert (d1 + d2 + 1) / 2 == d1 && (d1 + d2) / 2 == d2;
  }

  /** When the distance is 1, the snake of round 1 starts where the single
      edit ends, right after the common prefix. */
  lemma SnakeSingleEdit<T>(a: seq<T>, b: seq<T>, k: int, x: int, u: int)
    requires |a| >= 1 && |b| >= 1
    requires (k == 1 && x == Slide(a, b, 0, 0) + 1) || (k == -1 && x == Slide(a, b, 0, 0))
    requires x <= u <= |a| && 0 <= u - k <= |b| && CostFrom(a, b, u, u - k) == 0
    ensures |a| > |b| ==> 1 <= x && x == (x - k) + 1 && a[..x - 1] == b[..x - k]
    ensures |a| <= |b| ==> 1 <= x - k && x - k == x + 1 && a[..x] == b[..x - k - 1]
  {
    CostBounds(Rev(a), Rev(b), |a| - u, |b| - (u - k));
    assert |a| - |b| == k;
    SlideRun(a, b, 0, 0);
  }

  /** A snake whose ends cost `d` before it and `d - 1` after it on a path of
      length `2 d - 1` is a middle snake; in round 1 its start is right after
      the single edit. */
  lemma ForwardAssemble<T>(a: seq<T>, b: seq<T>, d: nat, k: int, x: int, u: int)
    requires |a| >= 1 && |b| >= 1 && d >= 1
    requires 0 <= x <= u <= |a| && 0 <= x - k <= u - k <= |b|
    requires a[x..u] == b[x - k..u - k]
    requires Cost(a, b, x, x - k) == d && CostFrom(a, b, u, u - k) == d - 1
    requires Dist(a, b) == 2 * d - 1
    requires d == 1 ==> (k == 1 && x == Slide(a, b, 0, 0) + 1) || (k == -1 && x == Slide(a, b, 0, 0))
    ensures IsMiddleSnake(a, b, Snake(x, x - k, u, u - k, 2 * d - 1))
  {
    if d == 1 {
      SnakeSingleEdit(a, b, k, x, u);
    }
    Assemble(a, b, x, x - k, u, u - k, d, d - 1, 2 * d - 1);
  }

  /** Soundness of the forward overlap test, in terms of the points it reads:
      a snake of round `d` from `x` that overlaps the reverse frontier `R` of
      round `d - 1` is a middle snake of a path of length `2 d - 1`. */
  lemma ForwardSnake<T>(a: seq<T>, b: seq<T>, d: nat, k: int, x: int, R: int)
    requires |a| >= 1 && |b| >= 1 && d >= 1
    requires InRange(|a|, |b|, d, k) && InRange(|a|, |b|, d - 1, |a| - |b| - k)
    requires 0 <= x && 0 <= x - k && Cost(a, b, x, x - k) <= d
    requires 0 <= R && 0 <= R - (|a| - |b| - k)
    requires Cost(Rev(a), Rev(b), R, R - (|a| - |b| - k)) <= d - 1
    requires Slide(a, b, x, k) + R >= |a|
    requires 2 * d - 1 <= Dist(a, b)
    requires d == 1 ==> (k == 1 && x == Slide(a, b, 0, 0) + 1) || (k == -1 && x == Slide(a, b, 0, 0))
    ensures IsMiddleSnake(a, b, Snake(x, x - k, Slide(a, b, x, k), Slide(a, b, x, k) - k, 2 * d - 1))
  {
    Meet(a, b, d, d - 1, k, x, R);
    ForwardAssemble(a, b, d, k, x, Slide(a, b, x, k));
  }

  /** A snake of the reversed graph, read in the original graph. */
  lemma Unreverse<T>(a: seq<T>, b: seq<T>, k: int, x: int, u: int)
    requires 0 <= x <= u <= |a| && 0 <= x - k <= u - k <= |b|
    requires Rev(a)[x..u] == Rev(b)[x - k..u - k]
    ensures a[|a| - u..|a| - x] == b[|b| - (u - k)..|b| - (x - k)]
  {
    var n, m := |a|, |b|;
    RevSlice(a, x, u);
    RevSlice(b, x - k, u - k);
    RevRev(a[n - u..n - x]);
    RevRev(b[m - (u - k)..m - (x - k)]);
  }

  /** Reversing both sequences twice leaves every cost unchanged. */
  lemma CostRevRev<T>(a: seq<T>, b: seq<T>, x: nat, y: nat)
    ensures Cost(Rev(Rev(a)), Rev(Rev(b)), x, y) == Cost(a, b, x, y)
  {
    RevRev(a);
    RevRev(b);
  }

  /** The overlap lemma applied to the reversed graph, whose reverse is the
      original graph. */
  lemma ReverseMeet<T>(a: seq<T>, b: seq<T>, d: nat, k: int, x: int, R: int)
    requires InRange(|a|, |b|, d, k) && InRange(|a|, |b|, d, |a| - |b| - k)
    requires 0 <= x && 0 <= x - k && Cost(Rev(a), Rev(b), x, x - k) <= d
    requires 0 <= R && 0 <= R - (|a| - |b| - k) && Cost(a, b, R, R - (|a| - |b| - k)) <= d
    requires Slide(Rev(a), Rev(b), x, k) + R >= |a|
    requires 2 * d <= Dist(a, b)
    ensures Dist(a, b) == 2 * d
    ensures 0 <= x <= Slide(Rev(a), Rev(b), x, k) <= |a|
    ensures 0 <= x - k <= Slide(Rev(a), Rev(b), x, k) - k <= |b|
    ensures Rev(a)[x..Slide(Rev(a), Rev(b), x, k)] == Rev(b)[x - k..Slide(Rev(a), Rev(b), x, k) - k]
    ensures Cost(Rev(a), Rev(b), x, x - k) == d
    ensures Cost(a, b, |a| - Slide(Rev(a), Rev(b), x, k), |b| - (Slide(Rev(a), Rev(b), x, k) - k)) == d
  {
    var u := Slide(Rev(a), Rev(b), x, k);
    CostRevRev(a, b, R, R - (|a| - |b| - k));
    DistRev(a, b);
    Meet(Rev(a), Rev(b), d, d, k, x, R);
    CostRevRev(a, b, |a| - u, |b| - (u - k));
  }

  /** A snake of the reversed graph whose ends cost `d` on either side, read
      back in the original graph, is a middle snake of a path of length
      `2 d`. */
  lemma BackwardAssemble<T>(a: seq<T>, b: seq<T>, d: nat, k: int, x: int, u: int)
    requires 0 <= x <= u <= |a| && 0 <= x - k <= u - k <= |b|
    requires Rev(a)[x..u] == Rev(b)[x - k..u - k]
    requires Cost(Rev(a), Rev(b), x, x - k) == d
    requires Cost(a, b, |a| - u, |b| - (u - k)) == d
    requires Dist(a, b) == 2 * d
    ensures IsMiddleSnake(a, b, Snake(|a| - u, |b| - (u - k), |a| - x, |b| - (x - k), 2 * d))
  {
    var n, m := |a|, |b|;
    Unreverse(a, b, k, x, u);
    assert CostFrom(a, b, n - x, m - (x - k)) == d;
    Assemble(a, b, n - u, m - (u - k), n - x, m - (x - k), d, d, 2 * d);
  }

  /** Soundness of the reverse overlap test: a reverse snake of round `d` from
      reversed column `x` that overlaps the forward frontier `R` of round `d`
      is, read back in the original graph, a middle snake of a path of length
      `2 d`. */
  lemma BackwardSnake<T>(a: seq<T>, b: seq<T>, d: nat, k: int, x: int, R: int)
    requires InRange(|a|, |b|, d, k) && InRange(|a|, |b|, d, |a| - |b| - k)
    requires 0 <= x && 0 <= x - k && Cost(Rev(a), Rev(b), x, x - k) <= d
    requires 0 <= R && 0 <= R - (|a| - |b| - k) && Cost(a, b, R, R - (|a| - |b| - k)) <= d
    requires Slide(Rev(a), Rev(b), x, k) + R >= |a|
    requires 2 * d <= Dist(a, b)
    ensures var u := Slide(Rev(a), Rev(b), x, k);
            IsMiddleSnake(a, b, Snake(|a| - u, |b| - (u - k), |a| - x, |b| - (x - k), 2 * d))
  {
    ReverseMeet(a, b, d, k, x, R);
    BackwardAssemble(a, b, d, k, x, Slide(Rev(a), Rev(b), x, k));
  }

  /** What the start rule gives at one diagonal: a point inside the
      quadrant reachable in `d` edits, and in round 1 the column right after
      the common prefix. */
  lemma StartAt<T>(a: seq<T>, b: seq<T>, d: nat, k: int, x: int)
    requires |a| >= 1 && |b| >= 1
    requires InRange(|a|, |b|, d, k) && x == Start(a, b, d, k)
    ensures 0 <= x && 0 <= x - k && Cost(a, b, x, x - k) <= d
    ensures d == 1 ==> (k == 1 && x == Slide(a, b, 0, 0) + 1) || (k == -1 && x == Slide(a, b, 0, 0))
  {
    StartCost(a, b, d, k);
    if d == 1 {
      FirstRound(a, b);
    }
  }

  /** What the frontier gives at one diagonal: a point reachable in `d` edits. */
  lemma ReachAt<T>(a: seq<T>, b: seq<T>, d: nat, k: int, R: int)
    requires |a| >= 1 && |b| >= 1
    requires InRange(|a|, |b|, d, k) && R == Reach(a, b, d, k)
    ensures 0 <= R && 0 <= R - k && Cost(a, b, R, R - k) <= d
  {
    ReachSound(a, b, d, k);
  }

  /** A forward overlap test that fires in a round no later than the
      distance allows reports a middle snake: the snake from the start `x` of
      round `d` on diagonal `k`, whose end reaches the reverse frontier `R` of
      round `d - 1`. */
  lemma ForwardMeet<T>(a: seq<T>, b: seq<T>, d: nat, k: int, x: int, R: int)
    requires |a| >= 1 && |b| >= 1 && d >= 1
    requires InRange(|a|, |b|, d, k) && InRange(|a|, |b|, d - 1, |a| - |b| - k)
    requires x == Start(a, b, d, k) && R == Reach(Rev(a), Rev(b), d - 1, |a| - |b| - k)
    requires Slide(a, b, x, k) + R >= |a|
    requires 2 * d - 1 <= Dist(a, b)
    ensures IsMiddleSnake(a, b, Snake(x, x - k, Slide(a, b, x, k), Slide(a, b, x, k) - k, 2 * d - 1))
  {
    hide Start, Reach, Slide, Cost, Dist, Rev, IsMiddleSnake;
    var kk := |a| - |b| - k;
    StartAt(a, b, d, k, x);
    ReachAt(Rev(a), Rev(b), d - 1, kk, R);
    ForwardSnake(a, b, d, k, x, R);
  }

  /** A reverse overlap test that fires in a round no later than the
      distance allows reports a middle snake: the reverse snake from the
      start `x` of round `d` on diagonal `k`, whose end reaches the forward
      frontier `R` of round `d`. */
  lemma BackwardMeet<T>(a: seq<T>, b: seq<T>, d: nat, k: int, x: int, R: int)
    requires |a| >= 1 && |b| >= 1
    requires InRange(|a|, |b|, d, k) && InRange(|a|, |b|, d, |a| - |b| - k)
    requires x == Start(Rev(a), Rev(b), d, k) && R == Reach(a, b, d, |a| - |b| - k)
    requires Slide(Rev(a), Rev(b), x, k) + R >= |a|
    requires 2 * d <= Dist(a, b)
    ensures var u := Slide(Rev(a), Rev(b), x, k);
            IsMiddleSnake(a, b, Snake(|a| - u, |b| - (u - k), |a| - x, |b| - (x - k), 2 * d))
  {
    hide Start, Reach, Slide, Cost, Dist, Rev, IsMiddleSnake;
    var kk := |a| - |b| - k;
    StartAt(Rev(a), Rev(b), d, k, x);
    ReachAt(a, b, d, kk, R);
    BackwardSnake(a, b, d, k, x, R);
  }

  // ---------------------------------------------------------------------------
  // The sweeps

  /** The forward sweep past the upper clamp has written the whole round and
      no diagonal from `k` upwards is in range, so none fires. */
  lemma ForwardExhausted<T>(a: seq<T>, b: seq<T>, v0: seq<int>, d: nat, k: int)
    requires k > MaxKAdjusted(|a|, d) && SweptBelow(a, b, v0, d, k)
    ensures HoldsRound(a, b, v0, d)
    ensures forall j :: k <= j ==> !FiresForward(a, b, d, j)
  {
    forall j | InRange(|a|, |b|, d, j)
      ensures v0[|b| + j] == Reach(a, b, d, j)
    {
      RangeBetweenClamps(|a|, |b|, d, j);
    }
    forall j | k <= j
      ensures !FiresForward(a, b, d, j)
    {
      RangeBetweenClamps(|a|, |b|, d, j);
    }
  }

  /** The reverse sweep below the lower clamp has written the whole round and
      no diagonal from `k` downwards is in range, so none fires. */
  lemma BackwardExhausted<T>(a: seq<T>, b: seq<T>, v1: seq<int>, d: nat, k: int)
    requires k < MinK(|b|, d) && SweptAbove(Rev(a), Rev(b), v1, d, k)
    ensures HoldsRound(Rev(a), Rev(b), v1, d)
    ensures forall j :: j <= k ==> !FiresBackward(a, b, d, j)
  {
    forall j | InRange(|a|, |b|, d, j)
      ensures v1[|b| + j] == Reach(Rev(a), Rev(b), d, j)
    {
      RangeBetweenClamps(|a|, |b|, d, j);
    }
    forall j | j <= k
      ensures !FiresBackward(a, b, d, j)
    {
      RangeBetweenClamps(|a|, |b|, d, j);
    }
  }

  /** One step of the forward sweep on a diagonal within the clamps, for the
      start `x` it reads and the end `u` of its snake. */
  lemma ForwardAt<T>(c: UpperClamp, a: seq<T>, b: seq<T>, v0: seq<int>, v1: seq<int>, d: nat, k: int, x: int, u: int)
    requires |a| >= 1 && |b| >= 1
    requires |v0| == |a| + |b| + 1 && |v1| == |v0|
    requires MinK(|b|, d) <= k <= Upper(c, |a|, d)
    requires x == SnakeStart(v0, |b| + k, MinK(|b|, d), Upper(c, |a|, d), k) && u == Slide(a, b, x, k)
    ensures var n, m, kk := |a|, |b|, |a| - |b| - k;
            var fires := (n - m) % 2 == 1 && MinK(m, d) <= kk <= Upper(c, n, d) && u + v1[m + kk] >= n;
            && (fires ==> Forward(c, a, b, v0, v1, d, k) == Found(Snake(x, x - k, u, u - k, 2 * d - 1)))
            && (!fires ==> Forward(c, a, b, v0, v1, d, k) == Forward(c, a, b, v0[m + k := u], v1, d, k + 2))
  {
  }

  /** A forward overlap on diagonal `k` gives a middle snake. */
  lemma ForwardFires<T>(a: seq<T>, b: seq<T>, d: nat, k: int)
    requires |a| >= 1 && |b| >= 1 && d >= 1
    requires InRange(|a|, |b|, d, k) && InRange(|a|, |b|, d - 1, |a| - |b| - k)
    requires Slide(a, b, Start(a, b, d, k), k) + Reach(Rev(a), Rev(b), d - 1, |a| - |b| - k) >= |a|
    requires 2 * d - 1 <= Dist(a, b)
    ensures var x := Start(a, b, d, k);
            IsMiddleSnake(a, b, Snake(x, x - k, Slide(a, b, x, k), Slide(a, b, x, k) - k, 2 * d - 1))
  {
    hide Start, Reach, Slide, Cost, Dist, Rev, IsMiddleSnake, Forward, Backward;
    ForwardMeet(a, b, d, k, Start(a, b, d, k), Reach(Rev(a), Rev(b), d - 1, |a| - |b| - k));
  }

  /** Where the forward test fires, the sweep stops with the snake from the
      start of round `d` on diagonal `k`. */
  lemma ForwardStops<T>(a: seq<T>, b: seq<T>, v0: seq<int>, v1: seq<int>, d: nat, k: int)
    requires |a| >= 1 && |b| >= 1 && |v1| == |a| + |b| + 1
    requires MinK(|b|, d) <= k <= MaxKAdjusted(|a|, d) && (k - d) % 2 == 0
    requires Prepared(a, b, v0, d)
    requires d >= 1 ==> HoldsRound(Rev(a), Rev(b), v1, d - 1)
    requires FiresForward(a, b, d, k)
    ensures var x := Start(a, b, d, k);
            Forward(ParityAdjusted, a, b, v0, v1, d, k) ==
              Found(Snake(x, x - k, Slide(a, b, x, k), Slide(a, b, x, k) - k, 2 * d - 1))
  {
    RangeBetweenClamps(|a|, |b|, d, k);
    StartFromArray(a, b, v0, d, k);
    var x := Start(a, b, d, k);
    ForwardTest(a, b, v1, d, k, Slide(a, b, x, k));
    ForwardAt(ParityAdjusted, a, b, v0, v1, d, k, x, Slide(a, b, x, k));
  }

  /** When the forward test fires on diagonal `k`, the sweep stops there and
      reports a middle snake. */
  lemma ForwardFound<T>(a: seq<T>, b: seq<T>, v0: seq<int>, v1: seq<int>, d: nat, k: int)
    requires |a| >= 1 && |b| >= 1 && |v1| == |a| + |b| + 1
    requires MinK(|b|, d) <= k <= MaxKAdjusted(|a|, d) && (k - d) % 2 == 0
    requires Prepared(a, b, v0, d)
    requires d >= 1 ==> HoldsRound(Rev(a), Rev(b), v1, d - 1)
    requires 2 * d - 1 <= Dist(a, b)
    requires FiresForward(a, b, d, k)
    ensures Forward(ParityAdjusted, a, b, v0, v1, d, k).Found?
    ensures IsMiddleSnake(a, b, Forward(ParityAdjusted, a, b, v0, v1, d, k).snake)
  {
    hide Start, Reach, Slide, Cost, Dist, Rev, IsMiddleSnake, Forward, Backward;
    assert InRange(|a|, |b|, d - 1, |a| - |b| - k) by {
      OddPartner(|a|, |b|, d, k);
    }
    ForwardFires(a, b, d, k);
    ForwardStops(a, b, v0, v1, d, k);
  }

  /** When the forward test does not fire on diagonal `k`, the sweep writes
      round `d`'s frontier there and moves on to `k + 2`. */
  lemma ForwardPassed<T>(a: seq<T>, b: seq<T>, v0: seq<int>, v1: seq<int>, d: nat, k: int)
    requires |a| >= 1 && |b| >= 1 && |v1| == |a| + |b| + 1
    requires MinK(|b|, d) <= k <= MaxKAdjusted(|a|, d) && (k - d) % 2 == 0
    requires Prepared(a, b, v0, d) && SweptBelow(a, b, v0, d, k)
    requires d >= 1 ==> HoldsRound(Rev(a), Rev(b), v1, d - 1)
    requires !FiresForward(a, b, d, k)
    ensures var w := v0[|b| + k := Reach(a, b, d, k)];
            && Forward(ParityAdjusted, a, b, v0, v1, d, k) == Forward(ParityAdjusted, a, b, w, v1, d, k + 2)
            && Prepared(a, b, w, d) && SweptBelow(a, b, w, d, k + 2)
  {
    var n, m := |a|, |b|;
    RangeBetweenClamps(n, m, d, k);
    StartFromArray(a, b, v0, d, k);
    ForwardAt(ParityAdjusted, a, b, v0, v1, d, k, Start(a, b, d, k), Reach(a, b, d, k));
    ForwardTest(a, b, v1, d, k, Reach(a, b, d, k));
    WriteKeepsPrepared(a, b, v0, d, k, Reach(a, b, d, k));
    WriteExtendsBelow(a, b, v0, d, k);
  }

  /** What the forward sweep from diagonal `k` achieves: a middle snake if it
      found an overlap, and otherwise the array holding the whole round `d`
      with no diagonal from `k` upwards firing. */
  ghost predicate ForwardOutcome<T>(a: seq<T>, b: seq<T>, d: nat, k: int, r: Sweep) {
    && (r.Found? ==> IsMiddleSnake(a, b, r.snake))
    && (r.Continue? ==> HoldsRound(a, b, r.v, d))
    && (r.Continue? ==> forall j :: k <= j ==> !FiresForward(a, b, d, j))
  }

  /** A diagonal of round `d` that does not fire extends the outcome of the
      sweep from the next diagonal of the round down to it. */
  lemma ForwardOutcomeStep<T>(a: seq<T>, b: seq<T>, d: nat, k: int, r: Sweep)
    requires InRange(|a|, |b|, d, k) && !FiresForward(a, b, d, k)
    requires ForwardOutcome(a, b, d, k + 2, r)
    ensures ForwardOutcome(a, b, d, k, r)
  {
    if r.Continue? {
      forall j | k <= j
        ensures !FiresForward(a, b, d, j)
      {
        NeighbourOutOfRound(|a|, |b|, d, k);
      }
    }
  }

  /** Past the upper clamp the forward sweep returns its array, which then
      holds the whole round `d`. */
  lemma ForwardEnds<T>(a: seq<T>, b: seq<T>, v0: seq<int>, v1: seq<int>, d: nat, k: int)
    requires |a| >= 1 && |b| >= 1 && |v1| == |a| + |b| + 1
    requires Prepared(a, b, v0, d) && SweptBelow(a, b, v0, d, k)
    requires k > MaxKAdjusted(|a|, d)
    ensures ForwardOutcome(a, b, d, k, Forward(ParityAdjusted, a, b, v0, v1, d, k))
  {
    ForwardExhausted(a, b, v0, d, k);
  }

  /** The forward sweep from diagonal `k` reports a middle snake if it finds
      an overlap; otherwise it returns the array holding the whole round `d`
      and no diagonal from `k` upwards fires. */
  lemma {:induction false} ForwardCorrect<T>(a: seq<T>, b: seq<T>, v0: seq<int>, v1: seq<int>, d: nat, k: int)
    requires |a| >= 1 && |b| >= 1 && |v1| == |a| + |b| + 1
    requires MinK(|b|, d) <= k && (k - d) % 2 == 0
    requires Prepared(a, b, v0, d) && SweptBelow(a, b, v0, d, k)
    requires d >= 1 ==> HoldsRound(Rev(a), Rev(b), v1, d - 1)
    requires 2 * d - 1 <= Dist(a, b)
    ensures ForwardOutcome(a, b, d, k, Forward(ParityAdjusted, a, b, v0, v1, d, k))
    decreases MaxKAdjusted(|a|, d) - k + 2
  {
    hide Start, Reach, Slide, Cost, Dist, Rev, IsMiddleSnake, Forward, Backward;
    if k > MaxKAdjusted(|a|, d) {
      ForwardEnds(a, b, v0, v1, d, k);
    } else if FiresForward(a, b, d, k) {
      ForwardFound(a, b, v0, v1, d, k);
    } else {
      var w := v0[|b| + k := Reach(a, b, d, k)];
      ForwardPassed(a, b, v0, v1, d, k);
      ForwardCorrect(a, b, w, v1, d, k + 2);
      RangeBetweenClamps(|a|, |b|, d, k);
      ForwardOutcomeStep(a, b, d, k, Forward(ParityAdjusted, a, b, w, v1, d, k + 2));
    }
  }

  /** One step of the reverse sweep on a diagonal within the clamps, for the
      start `x` it reads and the end `u` of its snake on the reversed
      sequences. */
  lemma BackwardAt<T>(c: UpperClamp, a: seq<T>, b: seq<T>, v0: seq<int>, v1: seq<int>, d: nat, k: int, x: int, u: int)
    requires |a| >= 1 && |b| >= 1
    requires |v0| == |a| + |b| + 1 && |v1| == |v0|
    requires MinK(|b|, d) <= k <= Upper(c, |a|, d)
    requires x == SnakeStart(v1, |b| + k, MinK(|b|, d), Upper(c, |a|, d), k)
    requires u == Slide(Rev(a), Rev(b), x, k)
    ensures var n, m, kk := |a|, |b|, |a| - |b| - k;
            var fires := (n - m) % 2 == 0 && MinK(m, d) <= kk <= Upper(c, n, d) && u + v0[m + kk] >= n;
            && (fires ==> Backward(c, a, b, v0, v1, d, k) ==
                            Found(Snake(n - u, m - (u - k), n - x, m - (x - k), 2 * d)))
            && (!fires ==> Backward(c, a, b, v0, v1, d, k) == Backward(c, a, b, v0, v1[m + k := u], d, k - 2))
  {
  }

  /** The start the reverse sweep reads from a prepared reverse array is the
      frontier rule's start on the reversed sequences. */
  lemma BackwardStart<T>(a: seq<T>, b: seq<T>, v1: seq<int>, d: nat, k: int)
    requires |a| >= 1 && |b| >= 1
    requires InRange(|a|, |b|, d, k) && Prepared(Rev(a), Rev(b), v1, d)
    ensures SnakeStart(v1, |b| + k, MinK(|b|, d), Upper(ParityAdjusted, |a|, d), k) == Start(Rev(a), Rev(b), d, k)
  {
    StartFromArray(Rev(a), Rev(b), v1, d, k);
  }

  /** A reverse overlap on diagonal `k` gives a middle snake. */
  lemma BackwardFires<T>(a: seq<T>, b: seq<T>, d: nat, k: int)
    requires |a| >= 1 && |b| >= 1
    requires InRange(|a|, |b|, d, k) && InRange(|a|, |b|, d, |a| - |b| - k)
    requires Slide(Rev(a), Rev(b), Start(Rev(a), Rev(b), d, k), k) + Reach(a, b, d, |a| - |b| - k) >= |a|
    requires 2 * d <= Dist(a, b)
    ensures var x := Start(Rev(a), Rev(b), d, k);
            var u := Slide(Rev(a), Rev(b), x, k);
            IsMiddleSnake(a, b, Snake(|a| - u, |b| - (u - k), |a| - x, |b| - (x - k), 2 * d))
  {
    hide Start, Reach, Slide, Cost, Dist, Rev, IsMiddleSnake, Forward, Backward;
    BackwardMeet(a, b, d, k, Start(Rev(a), Rev(b), d, k), Reach(a, b, d, |a| - |b| - k));
  }

  /** Where the reverse test fires, the sweep stops with the reverse snake
      from the start of round `d` on diagonal `k`. */
  lemma BackwardStops<T>(a: seq<T>, b: seq<T>, v0: seq<int>, v1: seq<int>, d: nat, k: int)
    requires |a| >= 1 && |b| >= 1
    requires MinK(|b|, d) <= k <= MaxKAdjusted(|a|, d) && (k - d) % 2 == 0
    requires HoldsRound(a, b, v0, d) && Prepared(Rev(a), Rev(b), v1, d)
    requires FiresBackward(a, b, d, k)
    ensures var x := Start(Rev(a), Rev(b), d, k);
            var u := Slide(Rev(a), Rev(b), x, k);
            Backward(ParityAdjusted, a, b, v0, v1, d, k) ==
              Found(Snake(|a| - u, |b| - (u - k), |a| - x, |b| - (x - k), 2 * d))
  {
    RangeBetweenClamps(|a|, |b|, d, k);
    BackwardStart(a, b, v1, d, k);
    var x := Start(Rev(a), Rev(b), d, k);
    var u := Slide(Rev(a), Rev(b), x, k);
    BackwardTest(a, b, v0, d, k, u);
    BackwardAt(ParityAdjusted, a, b, v0, v1, d, k, x, u);
  }

  /** When the reverse test fires on diagonal `k`, the sweep stops there and
      reports a middle snake. */
  lemma BackwardFound<T>(a: seq<T>, b: seq<T>, v0: seq<int>, v1: seq<int>, d: nat, k: int)
    requires |a| >= 1 && |b| >= 1
    requires MinK(|b|, d) <= k <= MaxKAdjusted(|a|, d) && (k - d) % 2 == 0
    requires HoldsRound(a, b, v0, d) && Prepared(Rev(a), Rev(b), v1, d)
    requires 2 * d <= Dist(a, b)
    requires FiresBackward(a, b, d, k)
    ensures Backward(ParityAdjusted, a, b, v0, v1, d, k).Found?
    ensures IsMiddleSnake(a, b, Backward(ParityAdjusted, a, b, v0, v1, d, k).snake)
  {
    hide Start, Reach, Slide, Cost, Dist, Rev, IsMiddleSnake, Forward, Backward;
    assert InRange(|a|, |b|, d, |a| - |b| - k) by {
      EvenPartner(|a|, |b|, d, k);
    }
    BackwardFires(a, b, d, k);
    BackwardStops(a, b, v0, v1, d, k);
  }

  /** When the reverse test does not fire on diagonal `k`, the sweep writes
      round `d`'s reverse frontier there and moves on to `k - 2`. */
  lemma BackwardPassed<T>(a: seq<T>, b: seq<T>, v0: seq<int>, v1: seq<int>, d: nat, k: int)
    requires |a| >= 1 && |b| >= 1
    requires MinK(|b|, d) <= k <= MaxKAdjusted(|a|, d) && (k - d) % 2 == 0
    requires HoldsRound(a, b, v0, d)
    requires Prepared(Rev(a), Rev(b), v1, d) && SweptAbove(Rev(a), Rev(b), v1, d, k)
    requires !FiresBackward(a, b, d, k)
    ensures var w := v1[|b| + k := Reach(Rev(a), Rev(b), d, k)];
            && Backward(ParityAdjusted, a, b, v0, v1, d, k) == Backward(ParityAdjusted, a, b, v0, w, d, k - 2)
            && Prepared(Rev(a), Rev(b), w, d) && SweptAbove(Rev(a), Rev(b), w, d, k - 2)
  {
    var n, m := |a|, |b|;
    RangeBetweenClamps(n, m, d, k);
    BackwardStart(a, b, v1, d, k);
    var u := Reach(Rev(a), Rev(b), d, k);
    BackwardAt(ParityAdjusted, a, b, v0, v1, d, k, Start(Rev(a), Rev(b), d, k), u);
    BackwardTest(a, b, v0, d, k, u);
    WriteKeepsPrepared(Rev(a), Rev(b), v1, d, k, u);
    WriteExtendsAbove(Rev(a), Rev(b), v1, d, k);
  }

  /** What the reverse sweep from diagonal `k` achieves: a middle snake if it
      found an overlap, and otherwise the reverse array holding the whole
      round `d` with no diagonal from `k` downwards firing. */
  ghost predicate BackwardOutcome<T>(a: seq<T>, b: seq<T>, d: nat, k: int, r: Sweep) {
    && (r.Found? ==> IsMiddleSnake(a, b, r.snake))
    && (r.Continue? ==> HoldsRound(Rev(a), Rev(b), r.v, d))
    && (r.Continue? ==> forall j :: j <= k ==> !FiresBackward(a, b, d, j))
  }

  /** A diagonal of round `d` that does not fire extends the outcome of the
      reverse sweep from the next diagonal down up to it. */
  lemma BackwardOutcomeStep<T>(a: seq<T>, b: seq<T>, d: nat, k: int, r: Sweep)
    requires InRange(|a|, |b|, d, k) && !FiresBackward(a, b, d, k)
    requires BackwardOutcome(a, b, d, k - 2, r)
    ensures BackwardOutcome(a, b, d, k, r)
  {
    if r.Continue? {
      forall j | j <= k
        ensures !FiresBackward(a, b, d, j)
      {
        NeighbourOutOfRound(|a|, |b|, d, k);
      }
    }
  }

  /** Below the lower clamp the reverse sweep returns its array, which then
      holds the whole round `d` on the reversed sequences. */
  lemma BackwardEnds<T>(a: seq<T>, b: seq<T>, v0: seq<int>, v1: seq<int>, d: nat, k: int)
    requires |a| >= 1 && |b| >= 1
    requires Prepared(Rev(a), Rev(b), v1, d) && SweptAbove(Rev(a), Rev(b), v1, d, k)
    requires HoldsRound(a, b, v0, d)
    requires k < MinK(|b|, d)
    ensures BackwardOutcome(a, b, d, k, Backward(ParityAdjusted, a, b, v0, v1, d, k))
  {
    BackwardExhausted(a, b, v1, d, k);
  }

  /** The reverse sweep from diagonal `k` reports a middle snake if it finds
      an overlap; otherwise it returns the reverse array holding the whole
      round `d` and no diagonal from `k` downwards fires. */
  lemma {:induction false} BackwardCorrect<T>(a: seq<T>, b: seq<T>, v0: seq<int>, v1: seq<int>, d: nat, k: int)
    requires |a| >= 1 && |b| >= 1
    requires k <= MaxKAdjusted(|a|, d) && (k - d) % 2 == 0
    requires HoldsRound(a, b, v0, d)
    requires Prepared(Rev(a), Rev(b), v1, d) && SweptAbove(Rev(a), Rev(b), v1, d, k)
    requires 2 * d <= Dist(a, b)
    ensures BackwardOutcome(a, b, d, k, Backward(ParityAdjusted, a, b, v0, v1, d, k))
    decreases k - MinK(|b|, d) + 2
  {
    hide Start, Reach, Slide, Cost, Dist, Rev, IsMiddleSnake, Forward, Backward;
    if k < MinK(|b|, d) {
      BackwardEnds(a, b, v0, v1, d, k);
    } else if FiresBackward(a, b, d, k) {
      BackwardFound(a, b, v0, v1, d, k);
    } else {
      var w := v1[|b| + k := Reach(Rev(a), Rev(b), d, k)];
      BackwardPassed(a, b, v0, v1, d, k);
      BackwardCorrect(a, b, v0, w, d, k - 2);
      RangeBetweenClamps(|a|, |b|, d, k);
      BackwardOutcomeStep(a, b, d, k, Backward(ParityAdjusted, a, b, v0, w, d, k - 2));
    }
  }

  // ---------------------------------------------------------------------------
  // The whole search

  /** Before a round's sweeps nothing has been written: no diagonal of the
      round lies below the lower clamp or above the upper one. */
  lemma SweepsBegin<T>(a: seq<T>, b: seq<T>, v0: seq<int>, v1: seq<int>, d: nat)
    requires |v0| == |a| + |b| + 1 && |v1| == |v0|
    ensures SweptBelow(a, b, v0, d, MinK(|b|, d))
    ensures SweptAbove(Rev(a), Rev(b), v1, d, MaxKAdjusted(|a|, d))
  {
    forall j | InRange(|a|, |b|, d, j)
      ensures MinK(|b|, d) <= j <= MaxKAdjusted(|a|, d)
    {
      RangeBetweenClamps(|a|, |b|, d, j);
    }
  }

  /** When the distance is `2d - 1`, the forward sweep of round `d` has a
      diagonal that fires: the search cannot pass a shortest path by. */
  lemma ForwardNotMissed<T>(a: seq<T>, b: seq<T>, d: nat) returns (k: int)
    requires |a| >= 1 && |b| >= 1
    requires Dist(a, b) == 2 * d - 1
    ensures MinK(|b|, d) <= k && FiresForward(a, b, d, k)
  {
    DistBounds(a, b);
    hide Start, Slide, Cost, Dist, Rev;
    assert |a| - |b| == (|a| + |b|) - 2 * |b|;
    k := Complete(a, b, d, d - 1);
    RangeBetweenClamps(|a|, |b|, d, k);
  }

  /** When the distance is `2d`, the reverse sweep of round `d` has a
      diagonal that fires. */
  lemma BackwardNotMissed<T>(a: seq<T>, b: seq<T>, d: nat) returns (k: int)
    requires |a| >= 1 && |b| >= 1
    requires Dist(a, b) == 2 * d
    ensures k <= MaxKAdjusted(|a|, d) && FiresBackward(a, b, d, k)
  {
    DistBounds(a, b);
    hide Start, Slide, Cost, Dist, Rev;
    assert |a| - |b| == (|a| + |b|) - 2 * |b|;
    var j := Complete(a, b, d, d);
    k := |a| - |b| - j;
    RangeBetweenClamps(|a|, |b|, d, j);
    RangeBetweenClamps(|a|, |b|, d, k);
  }

  /** From round `d` on, with both arrays prepared and no shorter path than
      `2d - 1`, the search returns a middle snake. */
  lemma {:induction false} SearchCorrect<T>(a: seq<T>, b: seq<T>, v0: seq<int>, v1: seq<int>, d: nat)
    requires |a| >= 1 && |b| >= 1
    requires Prepared(a, b, v0, d) && Prepared(Rev(a), Rev(b), v1, d)
    requires 2 * d - 1 <= Dist(a, b)
    ensures IsMiddleSnake(a, b, Search(ParityAdjusted, a, b, v0, v1, d))
    decreases (|a| + |b| + 1) / 2 + 1 - d
  {
    var n, m := |a|, |b|;
    DistBounds(a, b);
    hide Start, Reach, Slide, Cost, Dist, Rev, IsMiddleSnake, Forward, Backward;
    hide FiresForward, FiresBackward, HoldsRound, SweptBelow, SweptAbove;
    assert d <= (n + m + 1) / 2;
    var lo, hi := MinK(m, d), MaxKAdjusted(n, d);
    SweepsBegin(a, b, v0, v1, d);
    ForwardCorrect(a, b, v0, v1, d, lo);
    var f := Forward(ParityAdjusted, a, b, v0, v1, d, lo);
    if f.Continue? {
      if Dist(a, b) == 2 * d - 1 {
        var k := ForwardNotMissed(a, b, d);
        assert false;
      }
      BackwardCorrect(a, b, f.v, v1, d, hi);
      var g := Backward(ParityAdjusted, a, b, f.v, v1, d, hi);
      if g.Continue? {
        if Dist(a, b) == 2 * d {
          var k := BackwardNotMissed(a, b, d);
          assert false;
        }
        SearchCorrect(a, b, f.v, g.v, d + 1);
      }
    }
  }

  /** The corrected search on fresh arrays returns a middle snake. */
  lemma MiddleSnakeCorrect<T>(a: seq<T>, b: seq<T>)
    requires |a| >= 1 && |b| >= 1
    ensures IsMiddleSnake(a, b, MiddleSnakeWith(ParityAdjusted, a, b))
  {
    var z := Zeros(|a| + |b| + 1);
    SearchCorrect(a, b, z, z, 0);
  }

  /** `middlesnake` with the corrected upper clamp: a snake on a shortest
      path, whose length is zero exactly when the sequences are equal. */
  function MiddleSnake<T(==)>(a: seq<T>, b: seq<T>): (r: Snake)
    requires |a| >= 1 && |b| >= 1
    ensures IsMiddleSnake(a, b, r)
    ensures r.d == 0 <==> a == b
  {
    MiddleSnakeCorrect(a, b);
    DistZero(a, b);
    MiddleSnakeWith(ParityAdjusted, a, b)
  }
}
