/** The edit graph of a sequence `a` against a sequence `b` and the cost of
paths through it: the insert/delete distance that the diff of diff.go
minimises.

Point `(x, y)` stands for the prefixes `a[..x]` and `b[..y]`. A horizontal
edge takes one element of `a`, a vertical edge one element of `b`, each at
cost one; a diagonal edge into `(x + 1, y + 1)` is free and exists when
`a[x] == b[y]`. The graph is extended past `|a|` and `|b|` with points that
have no diagonal edges, so that the search frontiers, which may overshoot,
still name points with a cost.
 */
module EditGraph {

  /** There is a free diagonal edge from `(i, j)` to `(i + 1, j + 1)`. */
  predicate Matches<T(==)>(a: seq<T>, b: seq<T>, i: int, j: int) {
    0 <= i < |a| && 0 <= j < |b| && a[i] == b[j]
  }

  function Min(p: int, q: int): int {
    if p <= q then p else q
  }

  /** The least number of non-diagonal edges on a path from `(0, 0)` to `(x, y)`. */
  ghost function Cost<T>(a: seq<T>, b: seq<T>, x: nat, y: nat): nat
    decreases x + y
  {
    if x == 0 then y
    else if y == 0 then x
    else
      var step := Min(Cost(a, b, x - 1, y), Cost(a, b, x, y - 1)) + 1;
      if Matches(a, b, x - 1, y - 1) then Min(Cost(a, b, x - 1, y - 1), step) else step
  }

  /** The shortest-edit-script length between `a` and `b`: the number of
      insertions and deletions that turn one into the other. */
  ghost function Dist<T>(a: seq<T>, b: seq<T>): nat {
    Cost(a, b, |a|, |b|)
  }

  /** `s` read back to front. */
  function Rev<T>(s: seq<T>): (r: seq<T>)
    ensures |r| == |s|
  {
    seq(|s|, i requires 0 <= i < |s| => s[|s| - 1 - i])
  }

  /** The least number of non-diagonal edges on a path from `(x, y)` to
      `(|a|, |b|)`: the cost of the reversed prefixes in the reversed graph. */
  ghost function CostFrom<T>(a: seq<T>, b: seq<T>, x: nat, y: nat): nat
    requires x <= |a| && y <= |b|
  {
    Cost(Rev(a), Rev(b), |a| - x, |b| - y)
  }

  // ---------------------------------------------------------------------------
  // One-edge facts

  lemma StepRight<T>(a: seq<T>, b: seq<T>, x: nat, y: nat)
    ensures Cost(a, b, x + 1, y) <= Cost(a, b, x, y) + 1
  {
  }

  lemma StepUp<T>(a: seq<T>, b: seq<T>, x: nat, y: nat)
    ensures Cost(a, b, x, y + 1) <= Cost(a, b, x, y) + 1
  {
  }

  lemma StepDiagonal<T>(a: seq<T>, b: seq<T>, x: nat, y: nat)
    requires Matches(a, b, x, y)
    ensures Cost(a, b, x + 1, y + 1) <= Cost(a, b, x, y)
  {
  }

  lemma UpBy<T>(a: seq<T>, b: seq<T>, x: nat, y: nat, t: nat)
    ensures Cost(a, b, x, y + t) <= Cost(a, b, x, y) + t
    decreases t
  {
    if t > 0 {
      UpBy(a, b, x, y, t - 1);
      StepUp(a, b, x, y + t - 1);
    }
  }

  lemma RightBy<T>(a: seq<T>, b: seq<T>, x: nat, y: nat, t: nat)
    ensures Cost(a, b, x + t, y) <= Cost(a, b, x, y) + t
    decreases t
  {
    if t > 0 {
      RightBy(a, b, x, y, t - 1);
      StepRight(a, b, x + t - 1, y);
    }
  }

  // ---------------------------------------------------------------------------
  // Shape of the cost function

  /** Away from the borders the cost comes from one of the three edges
      into the point. */
  lemma CostChoices<T>(a: seq<T>, b: seq<T>, x: nat, y: nat)
    requires x > 0 && y > 0
    ensures || Cost(a, b, x, y) == Cost(a, b, x - 1, y) + 1
            || Cost(a, b, x, y) == Cost(a, b, x, y - 1) + 1
            || Cost(a, b, x, y) == Cost(a, b, x - 1, y - 1)
  {
  }

  /** On the borders the only path runs straight along the axis. */
  lemma CostBorders<T>(a: seq<T>, b: seq<T>, x: nat, y: nat)
    ensures x == 0 || y == 0 ==> Cost(a, b, x, y) == x + y
  {
  }

  /** One more on both sides keeps equal parities equal. */
  lemma ParityStep(c: int, s: int)
    requires c % 2 == s % 2
    ensures (c + 1) % 2 == (s + 1) % 2 && c % 2 == (s + 2) % 2
  {
  }

  /** Every edge changes `x + y` by one or two and costs one or nothing
      accordingly, so a cost has the parity of `x + y`. */
  lemma {:induction false} CostParity<T>(a: seq<T>, b: seq<T>, x: nat, y: nat)
    ensures Cost(a, b, x, y) % 2 == (x + y) % 2
    decreases x + y
  {
    hide Cost;
    CostBorders(a, b, x, y);
    if x > 0 && y > 0 {
      CostChoices(a, b, x, y);
      var c := Cost(a, b, x, y);
      if c == Cost(a, b, x - 1, y) + 1 {
        CostParity(a, b, x - 1, y);
        ParityStep(Cost(a, b, x - 1, y), x - 1 + y);
      } else if c == Cost(a, b, x, y - 1) + 1 {
        CostParity(a, b, x, y - 1);
        ParityStep(Cost(a, b, x, y - 1), x + y - 1);
      } else {
        CostParity(a, b, x - 1, y - 1);
        ParityStep(Cost(a, b, x - 1, y - 1), x + y - 2);
      }
    }
  }

  /** A path must cross `|x - y|` diagonals and never needs more than `x + y` edges. */
  lemma {:induction false} CostBounds<T>(a: seq<T>, b: seq<T>, x: nat, y: nat)
    ensures x - y <= Cost(a, b, x, y) && y - x <= Cost(a, b, x, y)
    ensures Cost(a, b, x, y) <= x + y
    decreases x + y
  {
    if x > 0 && y > 0 {
      CostBounds(a, b, x - 1, y);
      CostBounds(a, b, x, y - 1);
      CostBounds(a, b, x - 1, y - 1);
    }
  }

  /** The last edge into `(x, y)` of a path of at most `d` edits is a free
      diagonal, a horizontal or a vertical edge. */
  lemma LastEdge<T>(a: seq<T>, b: seq<T>, x: nat, y: nat, d: int)
    requires x >= 1 && y >= 1
    requires Cost(a, b, x, y) <= d
    ensures || (Matches(a, b, x - 1, y - 1) && Cost(a, b, x - 1, y - 1) <= d)
            || Cost(a, b, x - 1, y) + 1 <= d
            || Cost(a, b, x, y - 1) + 1 <= d
  {
  }

  /** Going back one column saves at most one edge. */
  lemma {:induction false} LipschitzX<T>(a: seq<T>, b: seq<T>, x: nat, y: nat)
    ensures Cost(a, b, x, y) <= Cost(a, b, x + 1, y) + 1
    decreases y
  {
    if y > 0 {
      StepUp(a, b, x, y - 1);
      LipschitzX(a, b, x, y - 1);
    }
  }

  /** Going back one row saves at most one edge. */
  lemma {:induction false} LipschitzY<T>(a: seq<T>, b: seq<T>, x: nat, y: nat)
    ensures Cost(a, b, x, y) <= Cost(a, b, x, y + 1) + 1
    decreases x
  {
    if x > 0 {
      StepRight(a, b, x - 1, y);
      LipschitzY(a, b, x - 1, y);
    }
  }

  /** The cost never decreases along a diagonal. */
  lemma DiagonalMonotone<T>(a: seq<T>, b: seq<T>, x: nat, y: nat)
    ensures Cost(a, b, x, y) <= Cost(a, b, x + 1, y + 1)
  {
    LipschitzX(a, b, x, y + 1);
    LipschitzY(a, b, x, y);
    LipschitzY(a, b, x + 1, y);
    LipschitzX(a, b, x, y);
  }

  lemma {:induction false} DiagonalMonotoneBy<T>(a: seq<T>, b: seq<T>, x: nat, y: nat, t: nat)
    ensures Cost(a, b, x, y) <= Cost(a, b, x + t, y + t)
    decreases t
  {
    if t > 0 {
      DiagonalMonotoneBy(a, b, x, y, t - 1);
      DiagonalMonotone(a, b, x + t - 1, y + t - 1);
    }
  }

  /** A run of matches is free. */
  lemma {:induction false} SnakeFree<T>(a: seq<T>, b: seq<T>, x: nat, y: nat, t: nat)
    requires x + t <= |a| && y + t <= |b|
    requires a[x..x + t] == b[y..y + t]
    ensures Cost(a, b, x + t, y + t) <= Cost(a, b, x, y)
    decreases t
  {
    if t > 0 {
      assert a[x..x + t - 1] == a[x..x + t][..t - 1];
      assert b[y..y + t - 1] == b[y..y + t][..t - 1];
      assert a[x + t - 1] == a[x..x + t][t - 1];
      assert b[y + t - 1] == b[y..y + t][t - 1];
      SnakeFree(a, b, x, y, t - 1);
      StepDiagonal(a, b, x + t - 1, y + t - 1);
    }
  }

  /** Past the last element of `a` only horizontal edges lead right, so each
      column costs exactly one more. */
  lemma {:induction false} BeyondA<T>(a: seq<T>, b: seq<T>, x: nat, y: nat)
    requires x >= |a|
    ensures Cost(a, b, x + 1, y) == Cost(a, b, x, y) + 1
    decreases y
  {
    if y > 0 {
      BeyondA(a, b, x, y - 1);
      StepUp(a, b, x, y - 1);
    }
  }

  /** Past the last element of `b` each row costs exactly one more. */
  lemma {:induction false} BeyondB<T>(a: seq<T>, b: seq<T>, x: nat, y: nat)
    requires y >= |b|
    ensures Cost(a, b, x, y + 1) == Cost(a, b, x, y) + 1
    decreases x
  {
    if x > 0 {
      BeyondB(a, b, x - 1, y);
      StepRight(a, b, x - 1, y);
    }
  }

  lemma {:induction false} BeyondABy<T>(a: seq<T>, b: seq<T>, y: nat, t: nat)
    ensures Cost(a, b, |a| + t, y) == Cost(a, b, |a|, y) + t
    decreases t
  {
    if t > 0 {
      BeyondABy(a, b, y, t - 1);
      BeyondA(a, b, |a| + t - 1, y);
    }
  }

  lemma {:induction false} BeyondBBy<T>(a: seq<T>, b: seq<T>, x: nat, t: nat)
    ensures Cost(a, b, x, |b| + t) == Cost(a, b, x, |b|) + t
    decreases t
  {
    if t > 0 {
      BeyondBBy(a, b, x, t - 1);
      BeyondB(a, b, x, |b| + t - 1);
    }
  }

  // ---------------------------------------------------------------------------
  // Prefixes, reversal and splitting

  /** The cost to `(x, y)` depends only on `a[..x]` and `b[..y]`. */
  lemma {:induction false} CostDependsOnPrefixes<T>(a: seq<T>, b: seq<T>, a': seq<T>, b': seq<T>, x: nat, y: nat)
    requires x <= |a| && x <= |a'| && y <= |b| && y <= |b'|
    requires a[..x] == a'[..x] && b[..y] == b'[..y]
    ensures Cost(a, b, x, y) == Cost(a', b', x, y)
    decreases x + y
  {
    if x > 0 && y > 0 {
      assert a[x - 1] == a[..x][x - 1] && a'[x - 1] == a'[..x][x - 1];
      assert b[y - 1] == b[..y][y - 1] && b'[y - 1] == b'[..y][y - 1];
      assert a[..x - 1] == a[..x][..x - 1] && a'[..x - 1] == a'[..x][..x - 1];
      assert b[..y - 1] == b[..y][..y - 1] && b'[..y - 1] == b'[..y][..y - 1];
      CostDependsOnPrefixes(a, b, a', b', x - 1, y);
      CostDependsOnPrefixes(a, b, a', b', x, y - 1);
      CostDependsOnPrefixes(a, b, a', b', x - 1, y - 1);
    }
  }

  /** Inside the graph the cost to `(x, y)` is the distance of the prefixes. */
  lemma CostIsPrefixDist<T>(a: seq<T>, b: seq<T>, x: nat, y: nat)
    requires x <= |a| && y <= |b|
    ensures Cost(a, b, x, y) == Dist(a[..x], b[..y])
  {
    CostDependsOnPrefixes(a, b, a[..x], b[..y], x, y);
  }

  lemma RevRev<T>(s: seq<T>)
    ensures Rev(Rev(s)) == s
  {
  }

  lemma RevSlice<T>(s: seq<T>, i: nat, j: nat)
    requires i <= j <= |s|
    ensures Rev(s)[i..j] == Rev(s[|s| - j..|s| - i])
  {
    var l, r := Rev(s)[i..j], Rev(s[|s| - j..|s| - i]);
    assert |l| == |r|;
    forall t | 0 <= t < |l|
      ensures l[t] == r[t]
    {
      assert l[t] == s[|s| - 1 - (i + t)];
    }
  }

  lemma RevConcat<T>(s: seq<T>, t: seq<T>)
    ensures Rev(s + t) == Rev(t) + Rev(s)
  {
  }

  /** The edge from the reversed graph into reversed point `(X, Y)` is the edge
      out of `(|a| - X, |b| - Y)` in the original graph. */
  lemma MatchesReversed<T>(a: seq<T>, b: seq<T>, x: nat, y: nat)
    requires x < |a| && y < |b|
    ensures Matches(Rev(a), Rev(b), |a| - x - 1, |b| - y - 1) <==> Matches(a, b, x, y)
  {
  }

  /** One step of the cost-to-the-end, read in the original graph. */
  lemma CostFromSteps<T>(a: seq<T>, b: seq<T>, x: nat, y: nat)
    requires x <= |a| && y <= |b|
    ensures x < |a| ==> CostFrom(a, b, x, y) <= CostFrom(a, b, x + 1, y) + 1
    ensures y < |b| ==> CostFrom(a, b, x, y) <= CostFrom(a, b, x, y + 1) + 1
    ensures Matches(a, b, x, y) ==> CostFrom(a, b, x, y) <= CostFrom(a, b, x + 1, y + 1)
  {
    if x < |a| {
      StepRight(Rev(a), Rev(b), |a| - x - 1, |b| - y);
    }
    if y < |b| {
      StepUp(Rev(a), Rev(b), |a| - x, |b| - y - 1);
    }
    if Matches(a, b, x, y) {
      MatchesReversed(a, b, x, y);
      StepDiagonal(Rev(a), Rev(b), |a| - x - 1, |b| - y - 1);
    }
  }

  /** The first edge of a cheapest path from `(x, y)` to the end keeps the
      total of cost-to and cost-from from growing. */
  lemma FirstEdge<T>(a: seq<T>, b: seq<T>, x: nat, y: nat) returns (px: nat, py: nat)
    requires x < |a| && y < |b|
    ensures x <= px <= x + 1 && y <= py <= y + 1 && x + y < px + py
    ensures Cost(a, b, px, py) + CostFrom(a, b, px, py) <= Cost(a, b, x, y) + CostFrom(a, b, x, y)
  {
    var ra, rb := Rev(a), Rev(b);
    var X, Y := |a| - x, |b| - y;
    assert CostFrom(a, b, x, y) == Cost(ra, rb, X, Y);
    assert CostFrom(a, b, x + 1, y) == Cost(ra, rb, X - 1, Y);
    assert CostFrom(a, b, x, y + 1) == Cost(ra, rb, X, Y - 1);
    assert CostFrom(a, b, x + 1, y + 1) == Cost(ra, rb, X - 1, Y - 1);
    MatchesReversed(a, b, x, y);
    if Matches(a, b, x, y) && Cost(ra, rb, X, Y) == Cost(ra, rb, X - 1, Y - 1) {
      StepDiagonal(a, b, x, y);
      px, py := x + 1, y + 1;
    } else if Cost(ra, rb, X, Y) == Cost(ra, rb, X - 1, Y) + 1 {
      StepRight(a, b, x, y);
      px, py := x + 1, y;
    } else {
      StepUp(a, b, x, y);
      px, py := x, y + 1;
    }
  }

  /** Any point splits a path: the distance is at most the cost to the point
      plus the cost from it to the end. */
  lemma {:induction false} Through<T>(a: seq<T>, b: seq<T>, x: nat, y: nat)
    requires x <= |a| && y <= |b|
    ensures Dist(a, b) <= Cost(a, b, x, y) + CostFrom(a, b, x, y)
    decreases |a| - x + |b| - y
  {
    if x == |a| {
      UpBy(a, b, x, y, |b| - y);
    } else if y == |b| {
      RightBy(a, b, x, y, |a| - x);
    } else {
      var px, py := FirstEdge(a, b, x, y);
      Through(a, b, px, py);
    }
  }

  /** Reversing both sequences reverses every path. */
  lemma DistRev<T>(a: seq<T>, b: seq<T>)
    ensures Dist(Rev(a), Rev(b)) == Dist(a, b)
  {
    Through(a, b, 0, 0);
    Through(Rev(a), Rev(b), 0, 0);
    RevRev(a);
    RevRev(b);
  }

  /** The cost to the end is the distance of the suffixes. */
  lemma CostFromIsSuffixDist<T>(a: seq<T>, b: seq<T>, x: nat, y: nat)
    requires x <= |a| && y <= |b|
    ensures CostFrom(a, b, x, y) == Dist(a[x..], b[y..])
  {
    CostIsPrefixDist(Rev(a), Rev(b), |a| - x, |b| - y);
    RevSlice(a, 0, |a| - x);
    RevSlice(b, 0, |b| - y);
    assert Rev(a)[..|a| - x] == Rev(a[x..]);
    assert Rev(b)[..|b| - y] == Rev(b[y..]);
    DistRev(a[x..], b[y..]);
  }

  /** Distances add up over concatenations. */
  lemma DistConcat<T>(p1: seq<T>, p2: seq<T>, q1: seq<T>, q2: seq<T>)
    ensures Dist(p1 + p2, q1 + q2) <= Dist(p1, q1) + Dist(p2, q2)
  {
    var a, b := p1 + p2, q1 + q2;
    Through(a, b, |p1|, |q1|);
    CostIsPrefixDist(a, b, |p1|, |q1|);
    CostFromIsSuffixDist(a, b, |p1|, |q1|);
    assert a[..|p1|] == p1 && b[..|q1|] == q1;
    assert a[|p1|..] == p2 && b[|q1|..] == q2;
  }

  /** Bounds and parity of the distance. */
  lemma DistBounds<T>(a: seq<T>, b: seq<T>)
    ensures |a| - |b| <= Dist(a, b) && |b| - |a| <= Dist(a, b)
    ensures Dist(a, b) <= |a| + |b|
    ensures Dist(a, b) % 2 == (|a| + |b|) % 2
  {
    CostBounds(a, b, |a|, |b|);
    CostParity(a, b, |a|, |b|);
  }

  lemma {:induction false} ZeroCostOnDiagonal<T>(a: seq<T>, x: nat)
    requires x <= |a|
    ensures Cost(a, a, x, x) == 0
    decreases x
  {
    if x > 0 {
      ZeroCostOnDiagonal(a, x - 1);
      StepDiagonal(a, a, x - 1, x - 1);
    }
  }

  lemma {:induction false} ZeroCostMeansEqual<T>(a: seq<T>, b: seq<T>, x: nat, y: nat)
    requires x <= |a| && y <= |b|
    requires Cost(a, b, x, y) == 0
    ensures x == y && a[..x] == b[..y]
    decreases x + y
  {
    CostBounds(a, b, x, y);
    if x > 0 {
      CostBounds(a, b, x - 1, y);
      CostBounds(a, b, x, y - 1);
      ZeroCostMeansEqual(a, b, x - 1, y - 1);
      assert a[..x] == a[..x - 1] + [a[x - 1]];
      assert b[..y] == b[..y - 1] + [b[y - 1]];
    }
  }

  /** With no match anywhere in the graph every point costs its full
      Manhattan distance from the origin. */
  lemma {:induction false} CostNoMatches<T>(a: seq<T>, b: seq<T>, x: nat, y: nat)
    requires forall i, j :: !Matches(a, b, i, j)
    ensures Cost(a, b, x, y) == x + y
    decreases x + y
  {
    if x > 0 && y > 0 {
      CostNoMatches(a, b, x - 1, y);
      CostNoMatches(a, b, x, y - 1);
      assert !Matches(a, b, x - 1, y - 1);
    }
  }

  /** Sequences with no element in common are as far apart as they can be:
      every element of `b` is deleted and every element of `a` inserted. */
  lemma DistDisjoint<T>(a: seq<T>, b: seq<T>)
    requires forall i, j :: 0 <= i < |a| && 0 <= j < |b| ==> a[i] != b[j]
    ensures Dist(a, b) == |a| + |b|
  {
    CostNoMatches(a, b, |a|, |b|);
  }

  /** The distance vanishes exactly on equal sequences. */
  lemma DistZero<T>(a: seq<T>, b: seq<T>)
    ensures Dist(a, b) == 0 <==> a == b
  {
    if a == b {
      ZeroCostOnDiagonal(a, |a|);
    }
    if Dist(a, b) == 0 {
      ZeroCostMeansEqual(a, b, |a|, |b|);
      assert a == a[..|a|] && b == b[..|b|];
    }
  }

  /** The last edge of a cheapest path into `(x, y)` keeps the total of
      cost-to and cost-from from growing and lowers the cost by at most one. */
  lemma LastStep<T>(a: seq<T>, b: seq<T>, x: nat, y: nat) returns (px: nat, py: nat)
    requires x <= |a| && y <= |b| && 0 < x + y
    ensures px <= x && py <= y && px + py < x + y
    ensures Cost(a, b, px, py) <= Cost(a, b, x, y) <= Cost(a, b, px, py) + 1
    ensures Cost(a, b, px, py) + CostFrom(a, b, px, py) <= Cost(a, b, x, y) + CostFrom(a, b, x, y)
  {
    if x == 0 {
      px, py := x, y - 1;
    } else if y == 0 {
      px, py := x - 1, y;
    } else if Matches(a, b, x - 1, y - 1) && Cost(a, b, x, y) == Cost(a, b, x - 1, y - 1) {
      px, py := x - 1, y - 1;
    } else if Cost(a, b, x, y) == Cost(a, b, x - 1, y) + 1 {
      px, py := x - 1, y;
    } else {
      px, py := x, y - 1;
    }
    CostFromSteps(a, b, px, py);
  }

  /** Walking back along a shortest path from `(x, y)` reaches a point of any
      smaller cost `t` that is still on a shortest path. */
  lemma {:induction false} WalkBack<T>(a: seq<T>, b: seq<T>, x: nat, y: nat, t: nat) returns (px: nat, py: nat)
    requires x <= |a| && y <= |b|
    requires Cost(a, b, x, y) + CostFrom(a, b, x, y) == Dist(a, b)
    requires t <= Cost(a, b, x, y)
    ensures px <= x && py <= y
    ensures Cost(a, b, px, py) == t
    ensures Cost(a, b, px, py) + CostFrom(a, b, px, py) == Dist(a, b)
    decreases x + y
  {
    if Cost(a, b, x, y) == t {
      return x, y;
    }
    var qx, qy := LastStep(a, b, x, y);
    Through(a, b, qx, qy);
    px, py := WalkBack(a, b, qx, qy, t);
  }

  /** Every cost up to the distance is met by a point on a shortest path. */
  lemma SplitPoint<T>(a: seq<T>, b: seq<T>, t: nat) returns (x: nat, y: nat)
    requires t <= Dist(a, b)
    ensures x <= |a| && y <= |b|
    ensures Cost(a, b, x, y) == t
    ensures Cost(a, b, x, y) + CostFrom(a, b, x, y) == Dist(a, b)
  {
    x, y := WalkBack(a, b, |a|, |b|, t);
  }
}
