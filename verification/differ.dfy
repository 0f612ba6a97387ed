/** The recursive decomposition `diff` and the entry point `Diff`
(diff.go:146-209).

`diff(x, y, u, v)` edits the range `b[y..v]` of the base into the range
`a[x..u]` of the target. Only the two slices `ma = a[x..u]` and `mb = b[y..v]`
and the tracker enter its behaviour (the recursive calls' slices are slices of
`ma` and `mb`), so the model recurses on the slices themselves. An empty side is one deletion or one insertion; a
middle snake of length 0 means the ranges are equal; a middle snake of length
1 marks the single edit; otherwise the range is split around the middle snake
and both halves are diffed, with the tracker counted over the snake in
between. The `edit` callback is modelled by returning the edits in the order
they are reported, together with the tracker's final position.
 */
module Differ {
  import opened EditGraph
  import opened Snakes
  import opened Positions
  import opened Edits

  /** The edits reported by a call of `diff` and the tracker's position after it. */
  datatype Run<T> = Run(edits: seq<Edit<T>>, at: Position)

  /** The middle snake `diff` splits at, with what the recursion needs to
      know about it (diff.go:164-191): its corners lie inside the ranges,
      length 0 means equal ranges, length 1 has the single edit's end point
      past the origin, and a longer one leaves a non-empty range on either
      side. */
  function Split<T(==)>(ma: seq<T>, mb: seq<T>): (s: Snake)
    requires |ma| >= 1 && |mb| >= 1
    ensures 0 <= s.x <= s.u <= |ma| && 0 <= s.y <= s.v <= |mb| && s.d >= 0
    ensures ma[s.x..s.u] == mb[s.y..s.v]
    ensures s.d == 0 <==> ma == mb
    ensures s.d == 1 && |ma| > |mb| ==> 1 <= s.x
    ensures s.d == 1 && |ma| <= |mb| ==> 1 <= s.y
    ensures s.d >= 2 ==> 1 <= s.x + s.y && s.u + s.v < |ma| + |mb|
    ensures s.d >= 2 ==> ma[..s.x] != mb[..s.y] && ma[s.u..] != mb[s.v..]
  {
    var s := MiddleSnake(ma, mb);
    DistZero(ma[..s.x], mb[..s.y]);
    DistZero(ma[s.u..], mb[s.v..]);
    s
  }

  /** The tracker over a range split in three is the tracker over the range. */
  lemma CountThree<T>(nl: Newline<T>, p: Position, mb: seq<T>, i: int, j: int)
    requires 0 <= i <= j <= |mb|
    ensures Count(nl, Count(nl, Count(nl, p, mb[..i]), mb[i..j]), mb[j..]) == Count(nl, p, mb)
  {
    CountConcat(nl, p, mb[..i], mb[i..j]);
    CountConcat(nl, p, mb[..i] + mb[i..j], mb[j..]);
    assert mb[..i] + mb[i..j] + mb[j..] == mb;
  }

  /** The tracker over a range split in two is the tracker over the range. */
  lemma CountTwo<T>(nl: Newline<T>, p: Position, mb: seq<T>, i: int)
    requires 0 <= i <= |mb|
    ensures Count(nl, Count(nl, p, mb[..i]), mb[i..]) == Count(nl, p, mb)
  {
    CountConcat(nl, p, mb[..i], mb[i..]);
    assert mb[..i] + mb[i..] == mb;
  }

  /** The base cases of `diff` with an empty side (diff.go:149-162): all of
      `mb` is deleted, or all of `ma` is inserted at the tracker. */
  function OneSided<T>(nl: Newline<T>, ma: seq<T>, mb: seq<T>, p: Position): (r: Run<T>)
    requires |ma| == 0 || |mb| == 0
    ensures r.at == Count(nl, p, mb)
    ensures |r.edits| == 1 && r.edits[0].start == p
    ensures |ma| == 0 ==> r.edits[0].end == r.at && r.edits[0].replacement == []
    ensures |ma| != 0 ==> r.edits[0].end == p && r.edits[0].replacement == ma
  {
    if |ma| == 0 then
      var e := Count(nl, p, mb);
      Run([Edit(p, e, [])], e)
    else
      Run([Edit(p, p, ma)], Count(nl, p, mb))
  }

  /** The `d == 1` case of `diff` (diff.go:169-186): the tracker is moved to
      the end point `(x, y)` of the single edit; a longer `ma` gets `ma[x - 1]`
      inserted there, otherwise `mb[y - 1]` is deleted; then the rest of `mb`
      is counted. */
  function SingleEdit<T>(nl: Newline<T>, ma: seq<T>, mb: seq<T>, s: Snake, p: Position): (r: Run<T>)
    requires 0 <= s.x <= |ma| && 0 <= s.y <= |mb|
    requires |ma| > |mb| ==> 1 <= s.x
    requires |ma| <= |mb| ==> 1 <= s.y
    ensures r.at == Count(nl, p, mb) && |r.edits| == 1
    ensures |ma| > |mb| ==> r.edits[0].start == r.edits[0].end == Count(nl, p, mb[..s.y])
    ensures |ma| > |mb| ==> r.edits[0].replacement == ma[s.x - 1..s.x]
    ensures |ma| <= |mb| ==> r.edits[0].start == Count(nl, p, mb[..s.y - 1])
    ensures |ma| <= |mb| ==> r.edits[0].end == Count(nl, p, mb[..s.y]) && r.edits[0].replacement == []
  {
    if |ma| > |mb| then
      var q := Count(nl, p, mb[..s.y]);
      CountTwo(nl, p, mb, s.y);
      Run([Edit(q, q, ma[s.x - 1..s.x])], Count(nl, q, mb[s.y..]))
    else
      var q := Count(nl, p, mb[..s.y - 1]);
      var e := Count(nl, q, mb[s.y - 1..s.y]);
      CountThree(nl, p, mb, s.y - 1, s.y);
      CountConcat(nl, p, mb[..s.y - 1], mb[s.y - 1..s.y]);
      assert mb[..s.y - 1] + mb[s.y - 1..s.y] == mb[..s.y];
      Run([Edit(q, e, [])], Count(nl, e, mb[s.y..]))
  }


  /** `diff` on the slices `a` (of the target) and `b` (of the base), with
      the tracker at `p` on entry (diff.go:146-192). */
  function DiffRange<T(==)>(nl: Newline<T>, a: seq<T>, b: seq<T>, p: Position): Run<T>
    decreases |a| + |b|
  {
    if |a| == 0 || |b| == 0 then OneSided(nl, a, b, p)
    else
      var s := Split(a, b);
      if s.d == 0 then Run([], p)
      else if s.d == 1 then SingleEdit(nl, a, b, s, p)
      else
        var first := DiffRange(nl, a[..s.x], b[..s.y], p);
        var second := DiffRange(nl, a[s.u..], b[s.v..], Count(nl, first.at, b[s.y..s.v]));
        Run(first.edits + second.edits, second.at)
  }

  /** The split snake is a middle snake. */
  lemma SplitIsMiddle<T>(a: seq<T>, b: seq<T>)
    requires |a| >= 1 && |b| >= 1
    ensures IsMiddleSnake(a, b, Split(a, b))
  {
  }

  /** With distance 1 and `a` longer, inserting `a[x - 1]` at `y` turns `b`
      into `a` (diff.go:171-175). */
  lemma SingleInsert<T>(a: seq<T>, b: seq<T>, s: Snake)
    requires IsMiddleSnake(a, b, s) && s.d == 1 && |a| > |b|
    ensures b[..s.y] + a[s.x - 1..s.x] + b[s.y..] == a
  {
    DistZero(a[s.u..], b[s.v..]);
    assert b[s.y..] == b[s.y..s.v] + b[s.v..];
    assert a == a[..s.x - 1] + a[s.x - 1..s.x] + a[s.x..s.u] + a[s.u..];
  }

  /** With distance 1 and `b` at least as long, deleting `b[y - 1]` turns
      `b` into `a` (diff.go:176-183). */
  lemma SingleDelete<T>(a: seq<T>, b: seq<T>, s: Snake)
    requires IsMiddleSnake(a, b, s) && s.d == 1 && |a| <= |b|
    ensures b[..s.y - 1] + b[s.y..] == a
  {
    DistZero(a[s.u..], b[s.v..]);
    assert b[s.y..] == b[s.y..s.v] + b[s.v..];
    assert a == a[..s.x] + a[s.x..s.u] + a[s.u..];
  }

  /** The cases of `diff`, one call deep. */
  lemma DiffCases<T>(nl: Newline<T>, a: seq<T>, b: seq<T>, p: Position)
    ensures |a| == 0 || |b| == 0 ==> DiffRange(nl, a, b, p) == OneSided(nl, a, b, p)
    ensures |a| >= 1 && |b| >= 1 && Split(a, b).d == 0 ==> DiffRange(nl, a, b, p) == Run([], p)
    ensures |a| >= 1 && |b| >= 1 && Split(a, b).d == 1 ==> DiffRange(nl, a, b, p) == SingleEdit(nl, a, b, Split(a, b), p)
    ensures |a| >= 1 && |b| >= 1 && Split(a, b).d >= 2 ==>
              var s := Split(a, b);
              var first := DiffRange(nl, a[..s.x], b[..s.y], p);
              var second := DiffRange(nl, a[s.u..], b[s.v..], Count(nl, first.at, b[s.y..s.v]));
              DiffRange(nl, a, b, p) == Run(first.edits + second.edits, second.at)
  {
    hide Split, Count, OneSided, SingleEdit;
  }

  /** After `diff` the tracker has counted the whole base range, except when
      the two ranges are equal and non-empty: then `diff` returns at once and
      counts nothing (diff.go:165-167). */
  lemma {:induction false} DiffAdvances<T>(nl: Newline<T>, a: seq<T>, b: seq<T>, p: Position)
    ensures DiffRange(nl, a, b, p).at == (if a == b && a != [] then p else Count(nl, p, b))
    decreases |a| + |b|
  {
    DiffCases(nl, a, b, p);
    hide DiffRange, Split, Count, OneSided, SingleEdit;
    if |a| >= 1 && |b| >= 1 {
      var s := Split(a, b);
      if s.d >= 2 {
        var first := DiffRange(nl, a[..s.x], b[..s.y], p);
        DiffAdvances(nl, a[..s.x], b[..s.y], p);
        DiffAdvances(nl, a[s.u..], b[s.v..], Count(nl, first.at, b[s.y..s.v]));
        CountThree(nl, p, b, s.y, s.v);
      }
    }
  }

  /** The halves of a split range are never equal, so the tracker after the
      first half has counted it, and before the second half has counted up
      to the end of the snake. */
  lemma HalvesAdvance<T>(nl: Newline<T>, a: seq<T>, b: seq<T>, p: Position)
    requires |a| >= 1 && |b| >= 1 && Split(a, b).d >= 2
    ensures var s := Split(a, b);
            var first := DiffRange(nl, a[..s.x], b[..s.y], p);
            first.at == Count(nl, p, b[..s.y]) &&
            Count(nl, first.at, b[s.y..s.v]) == Count(nl, p, b[..s.v])
  {
    hide DiffRange, Split, Count, OneSided, SingleEdit;
    var s := Split(a, b);
    assert a[..s.x] != b[..s.y];
    DiffAdvances(nl, a[..s.x], b[..s.y], p);
    assert DiffRange(nl, a[..s.x], b[..s.y], p).at == Count(nl, p, b[..s.y]);
    CountConcat(nl, p, b[..s.y], b[s.y..s.v]);
    assert b[..s.y] + b[s.y..s.v] == b[..s.v];
  }

  // ---------------------------------------------------------------------------
  // Applying the reported edits

  /** `src` holds `b` from index `i` on. */
  ghost predicate HoldsAt<T>(src: seq<T>, i: int, b: seq<T>) {
    0 <= i && i + |b| <= |src| && src[i..i + |b|] == b
  }

  /** Any part of `b` is found at the matching place in `src`. */
  lemma WindowSlice<T>(src: seq<T>, i: int, b: seq<T>, j: int, k: int)
    requires HoldsAt(src, i, b) && 0 <= j <= k <= |b|
    ensures src[i + j..i + k] == b[j..k]
  {
    forall t | 0 <= t < k - j
      ensures src[i + j..i + k][t] == b[j..k][t]
    {
      assert src[i..i + |b|][j + t] == b[j + t];
    }
  }

  /** With an empty side, the one edit turns `b` into `a`. */
  lemma RoundTripOneSided<T>(nl: Newline<T>, a: seq<T>, b: seq<T>, p: Position, src: seq<T>)
    requires |a| == 0 || |b| == 0
    requires HoldsAt(src, p.index, b)
    ensures ApplyWindow(src, p.index, p.index + |b|, OneSided(nl, a, b, p).edits) == Some(a)
  {
    var e := OneSided(nl, a, b, p).edits[0];
    hide OneSided, Count;
    assert OneSided(nl, a, b, p).edits == [e];
    ApplySingle(src, p.index, p.index + |b|, e);
    if |a| == 0 {
      assert src[p.index..e.start.index] + e.replacement + src[e.end.index..p.index + |b|] == [];
    } else {
      assert src[p.index..e.start.index] + e.replacement + src[e.end.index..p.index + |b|] == a;
    }
  }

  /** One edit that replaces `b[y..z]` of the window by `rep` yields
      `b[..y] + rep + b[z..]`. */
  lemma ApplyInWindow<T>(src: seq<T>, i: int, b: seq<T>, e: Edit<T>, y: int, z: int)
    requires HoldsAt(src, i, b) && 0 <= y <= z <= |b|
    requires e.start.index == i + y && e.end.index == i + z
    ensures ApplyWindow(src, i, i + |b|, [e]) == Some(b[..y] + e.replacement + b[z..])
  {
    ApplySingle(src, i, i + |b|, e);
    WindowSlice(src, i, b, 0, y);
    WindowSlice(src, i, b, z, |b|);
  }

  /** With distance 1 and `a` longer, the single insertion turns `b` into
      `a`. */
  lemma RoundTripInsert<T>(nl: Newline<T>, a: seq<T>, b: seq<T>, s: Snake, p: Position, src: seq<T>)
    requires |a| > |b| >= 1 && IsMiddleSnake(a, b, s) && s.d == 1
    requires HoldsAt(src, p.index, b)
    ensures ApplyWindow(src, p.index, p.index + |b|, SingleEdit(nl, a, b, s, p).edits) == Some(a)
  {
    SingleInsert(a, b, s);
    hide SingleEdit, Count, ApplyWindow, IsMiddleSnake, Dist;
    var e := SingleEdit(nl, a, b, s, p).edits[0];
    assert SingleEdit(nl, a, b, s, p).edits == [e];
    ApplyInWindow(src, p.index, b, e, s.y, s.y);
  }


  /** With distance 1 and `b` at least as long, the single deletion turns
      `b` into `a`. */
  lemma RoundTripDelete<T>(nl: Newline<T>, a: seq<T>, b: seq<T>, s: Snake, p: Position, src: seq<T>)
    requires 1 <= |a| <= |b| && IsMiddleSnake(a, b, s) && s.d == 1
    requires HoldsAt(src, p.index, b)
    ensures ApplyWindow(src, p.index, p.index + |b|, SingleEdit(nl, a, b, s, p).edits) == Some(a)
  {
    SingleDelete(a, b, s);
    hide SingleEdit, Count, ApplyWindow, IsMiddleSnake, Dist;
    var e := SingleEdit(nl, a, b, s, p).edits[0];
    assert SingleEdit(nl, a, b, s, p).edits == [e];
    assert e.replacement == [];
    assert b[..s.y - 1] + e.replacement + b[s.y..] == a;
    ApplyInWindow(src, p.index, b, e, s.y - 1, s.y);
  }


  /** Applying the edits `diff` reports to the base range turns it into the
      target range: the script is a correct edit script (diff.go:146-192,
      diff_test.go:15-26). */
  lemma {:induction false} DiffRoundTrip<T>(nl: Newline<T>, a: seq<T>, b: seq<T>, p: Position, src: seq<T>)
    requires HoldsAt(src, p.index, b)
    ensures ApplyWindow(src, p.index, p.index + |b|, DiffRange(nl, a, b, p).edits) == Some(a)
    decreases |a| + |b|, 1
  {
    var i := p.index;
    DiffCases(nl, a, b, p);
    hide DiffRange, Split, Count, OneSided, SingleEdit, ApplyWindow;
    if |a| == 0 || |b| == 0 {
      RoundTripOneSided(nl, a, b, p, src);
    } else if Split(a, b).d == 0 {
      ApplyCopy(src, i, i + |b|);
    } else if Split(a, b).d == 1 {
      SplitIsMiddle(a, b);
      if |a| > |b| {
        RoundTripInsert(nl, a, b, Split(a, b), p, src);
      } else {
        RoundTripDelete(nl, a, b, Split(a, b), p, src);
      }
    } else {
      RoundTripHalves(nl, a, b, p, src);
    }
  }

  /** The split case of `DiffRoundTrip`: the first half's edits, the copied
      snake and the second half's edits rebuild `a` (diff.go:188-191). */
  lemma {:induction false} RoundTripHalves<T>(nl: Newline<T>, a: seq<T>, b: seq<T>, p: Position, src: seq<T>)
    requires |a| >= 1 && |b| >= 1 && Split(a, b).d >= 2
    requires HoldsAt(src, p.index, b)
    ensures ApplyWindow(src, p.index, p.index + |b|, DiffRange(nl, a, b, p).edits) == Some(a)
    decreases |a| + |b|, 0
  {
    hide DiffRange, Split, Count, OneSided, SingleEdit, ApplyWindow;
    var i := p.index;
    DiffCases(nl, a, b, p);
    HalvesAdvance(nl, a, b, p);
    var s := Split(a, b);
    var first := DiffRange(nl, a[..s.x], b[..s.y], p);
    var mid := Count(nl, first.at, b[s.y..s.v]);
    var second := DiffRange(nl, a[s.u..], b[s.v..], mid);
    assert DiffRange(nl, a, b, p).edits == first.edits + second.edits;
    assert mid.index == i + s.v;
    WindowSlice(src, i, b, 0, s.y);
    WindowSlice(src, i, b, s.y, s.v);
    WindowSlice(src, i, b, s.v, |b|);
    DiffRoundTrip(nl, a[..s.x], b[..s.y], p, src);
    DiffRoundTrip(nl, a[s.u..], b[s.v..], mid, src);
    ApplyJoin(src, i, i + s.y, i + s.v, i + |b|, first.edits, second.edits);
    assert a == a[..s.x] + a[s.x..s.u] + a[s.u..];
  }

  // ---------------------------------------------------------------------------
  // The size of the script

  /** With an empty side the one edit costs the length of the other side. */
  lemma CostOneSided<T>(nl: Newline<T>, a: seq<T>, b: seq<T>, p: Position)
    requires |a| == 0 || |b| == 0
    ensures ScriptCost(OneSided(nl, a, b, p).edits) == Dist(a, b)
  {
    hide OneSided, Count;
    var e := OneSided(nl, a, b, p).edits[0];
    assert OneSided(nl, a, b, p).edits == [e];
    ScriptCostSingle(e);
    DistBounds(a, b);
  }

  /** With distance 1 the single edit costs 1. */
  lemma CostSingle<T>(nl: Newline<T>, a: seq<T>, b: seq<T>, p: Position)
    requires |a| >= 1 && |b| >= 1 && Split(a, b).d == 1
    ensures ScriptCost(SingleEdit(nl, a, b, Split(a, b), p).edits) == Dist(a, b)
  {
    hide SingleEdit, Split, Count;
    var s := Split(a, b);
    SplitIsMiddle(a, b);
    assert s.d == Dist(a, b);
    hide IsMiddleSnake;
    var e := SingleEdit(nl, a, b, s, p).edits[0];
    assert SingleEdit(nl, a, b, s, p).edits == [e];
    ScriptCostSingle(e);
  }

  /** The script `diff` reports has exactly the edit distance as its size:
      it is a shortest edit script (diff.go:146-192). */
  lemma {:induction false} DiffCost<T>(nl: Newline<T>, a: seq<T>, b: seq<T>, p: Position)
    ensures ScriptCost(DiffRange(nl, a, b, p).edits) == Dist(a, b)
    decreases |a| + |b|, 1
  {
    DiffCases(nl, a, b, p);
    hide DiffRange, Split, Count, OneSided, SingleEdit;
    if |a| == 0 || |b| == 0 {
      CostOneSided(nl, a, b, p);
    } else if Split(a, b).d == 0 {
      DistZero(a, b);
      assert ScriptCost<T>([]) == 0;
    } else if Split(a, b).d == 1 {
      CostSingle(nl, a, b, p);
    } else {
      CostHalves(nl, a, b, p);
    }
  }

  /** The split case of `DiffCost`: the halves cost `(d + 1) / 2` and
      `d / 2`. */
  lemma {:induction false} CostHalves<T>(nl: Newline<T>, a: seq<T>, b: seq<T>, p: Position)
    requires |a| >= 1 && |b| >= 1 && Split(a, b).d >= 2
    ensures ScriptCost(DiffRange(nl, a, b, p).edits) == Dist(a, b)
    decreases |a| + |b|, 0
  {
    hide DiffRange, Split, Count, OneSided, SingleEdit;
    DiffCases(nl, a, b, p);
    var s := Split(a, b);
    SplitIsMiddle(a, b);
    assert Dist(a[..s.x], b[..s.y]) + Dist(a[s.u..], b[s.v..]) == Dist(a, b);
    hide IsMiddleSnake, Dist;
    var first := DiffRange(nl, a[..s.x], b[..s.y], p);
    var second := DiffRange(nl, a[s.u..], b[s.v..], Count(nl, first.at, b[s.y..s.v]));
    assert DiffRange(nl, a, b, p).edits == first.edits + second.edits;
    DiffCost(nl, a[..s.x], b[..s.y], p);
    DiffCost(nl, a[s.u..], b[s.v..], Count(nl, first.at, b[s.y..s.v]));
    SumsConcat(first.edits, second.edits);
  }

  // ---------------------------------------------------------------------------
  // The order of the edits

  /** With an empty side the one edit lies in the window. */
  lemma OrderedOneSided<T>(nl: Newline<T>, a: seq<T>, b: seq<T>, p: Position)
    requires |a| == 0 || |b| == 0
    ensures Ordered(p.index, p.index + |b|, OneSided(nl, a, b, p).edits)
  {
    hide OneSided, Count;
    var e := OneSided(nl, a, b, p).edits[0];
    assert OneSided(nl, a, b, p).edits == [e];
    OrderedSingle(p.index, p.index + |b|, e);
  }

  /** With distance 1 the single edit lies in the window. */
  lemma OrderedSingleEdit<T>(nl: Newline<T>, a: seq<T>, b: seq<T>, p: Position)
    requires |a| >= 1 && |b| >= 1 && Split(a, b).d == 1
    ensures Ordered(p.index, p.index + |b|, SingleEdit(nl, a, b, Split(a, b), p).edits)
  {
    hide SingleEdit, Split, Count;
    var s := Split(a, b);
    var e := SingleEdit(nl, a, b, s, p).edits[0];
    assert SingleEdit(nl, a, b, s, p).edits == [e];
    OrderedSingle(p.index, p.index + |b|, e);
  }

  /** The edits `diff` reports remove forward ranges of the base range, in
      order and without overlapping (diff.go:146-192). */
  lemma {:induction false} DiffOrdered<T>(nl: Newline<T>, a: seq<T>, b: seq<T>, p: Position)
    ensures Ordered(p.index, p.index + |b|, DiffRange(nl, a, b, p).edits)
    decreases |a| + |b|, 1
  {
    DiffCases(nl, a, b, p);
    hide DiffRange, Split, Count, OneSided, SingleEdit;
    if |a| == 0 || |b| == 0 {
      OrderedOneSided(nl, a, b, p);
    } else if Split(a, b).d == 0 {
      assert Resume<T>(p.index, [], 0) == p.index;
    } else if Split(a, b).d == 1 {
      OrderedSingleEdit(nl, a, b, p);
    } else {
      OrderedHalves(nl, a, b, p);
    }
  }

  /** The split case of `DiffOrdered`: the first half's edits end before the
      snake, the second half's start after it. */
  lemma {:induction false} OrderedHalves<T>(nl: Newline<T>, a: seq<T>, b: seq<T>, p: Position)
    requires |a| >= 1 && |b| >= 1 && Split(a, b).d >= 2
    ensures Ordered(p.index, p.index + |b|, DiffRange(nl, a, b, p).edits)
    decreases |a| + |b|, 0
  {
    hide DiffRange, Split, Count, OneSided, SingleEdit;
    DiffCases(nl, a, b, p);
    HalvesAdvance(nl, a, b, p);
    var s := Split(a, b);
    var first := DiffRange(nl, a[..s.x], b[..s.y], p);
    var mid := Count(nl, first.at, b[s.y..s.v]);
    var second := DiffRange(nl, a[s.u..], b[s.v..], mid);
    assert DiffRange(nl, a, b, p).edits == first.edits + second.edits;
    DiffOrdered(nl, a[..s.x], b[..s.y], p);
    DiffOrdered(nl, a[s.u..], b[s.v..], mid);
    OrderedJoin(p.index, p.index + s.y, p.index + s.v, p.index + |b|, first.edits, second.edits);
  }

  // ---------------------------------------------------------------------------
  // The shape of each edit

  /** A deletion removes a non-empty range of the base and inserts nothing. */
  ghost predicate Deletion<T>(e: Edit<T>) {
    e.replacement == [] && e.start.index < e.end.index
  }

  /** An insertion removes nothing and inserts a non-empty slice of `a`. */
  ghost predicate Insertion<T>(a: seq<T>, e: Edit<T>) {
    && e.start == e.end
    && exists i, j :: 0 <= i < j <= |a| && e.replacement == a[i..j]
  }

  /** Every edit is a deletion or an insertion from `a`. */
  ghost predicate Shaped<T>(a: seq<T>, edits: seq<Edit<T>>) {
    forall e | e in edits :: Deletion(e) || Insertion(a, e)
  }

  /** An insertion from a slice of `a` is an insertion from `a`. */
  lemma ShapedLift<T>(a: seq<T>, i: int, j: int, edits: seq<Edit<T>>)
    requires 0 <= i <= j <= |a| && Shaped(a[i..j], edits)
    ensures Shaped(a, edits)
  {
    forall e | e in edits && !Deletion(e)
      ensures Insertion(a, e)
    {
      var k, l :| 0 <= k < l <= j - i && e.replacement == a[i..j][k..l];
      SliceOfSlice(a, i, j, k, l);
    }
  }

  /** A slice of a slice is a slice. */
  lemma SliceOfSlice<T>(a: seq<T>, i: int, j: int, k: int, l: int)
    requires 0 <= i <= j <= |a| && 0 <= k <= l <= j - i
    ensures a[i..j][k..l] == a[i + k..i + l]
  {
    forall t | 0 <= t < l - k
      ensures a[i..j][k..l][t] == a[i + k..i + l][t]
    {
      assert a[i..j][k + t] == a[i + k + t];
    }
  }

  /** With an empty side and a non-empty other side, the one edit deletes
      all of `b` or inserts all of `a`. */
  lemma ShapedOneSided<T>(nl: Newline<T>, a: seq<T>, b: seq<T>, p: Position)
    requires (|a| == 0) != (|b| == 0)
    ensures Shaped(a, OneSided(nl, a, b, p).edits)
  {
    hide OneSided, Count;
    var e := OneSided(nl, a, b, p).edits[0];
    assert OneSided(nl, a, b, p).edits == [e];
    if |a| != 0 {
      assert e.replacement == a[0..|a|];
    }
  }

  /** With distance 1 the single edit inserts `a[x - 1]` or deletes one
      element of `b`. */
  lemma ShapedSingle<T>(nl: Newline<T>, a: seq<T>, b: seq<T>, p: Position)
    requires |a| >= 1 && |b| >= 1 && Split(a, b).d == 1
    ensures Shaped(a, SingleEdit(nl, a, b, Split(a, b), p).edits)
  {
    hide SingleEdit, Split, Count;
    var s := Split(a, b);
    var e := SingleEdit(nl, a, b, s, p).edits[0];
    assert SingleEdit(nl, a, b, s, p).edits == [e];
    if |a| > |b| {
      assert e.replacement == a[s.x - 1..s.x];
    }
  }

  /** Each edit `diff` reports deletes a non-empty range of the base or
      inserts a non-empty slice of the target at one position; the `nil`
      replacement and the subslice of `a` the documentation of `Diff`
      promises (diff.go:194-196). Only when both ranges are empty is the
      single reported edit empty. */
  lemma {:induction false} DiffShaped<T>(nl: Newline<T>, a: seq<T>, b: seq<T>, p: Position)
    ensures a != [] || b != [] ==> Shaped(a, DiffRange(nl, a, b, p).edits)
    decreases |a| + |b|, 1
  {
    DiffCases(nl, a, b, p);
    hide DiffRange, Split, Count, OneSided, SingleEdit;
    if |a| == 0 && |b| == 0 {
    } else if |a| == 0 || |b| == 0 {
      ShapedOneSided(nl, a, b, p);
    } else if Split(a, b).d == 0 {
    } else if Split(a, b).d == 1 {
      ShapedSingle(nl, a, b, p);
    } else {
      ShapedHalves(nl, a, b, p);
    }
  }

  /** The split case of `DiffShaped`: neither half is empty on both sides. */
  lemma {:induction false} ShapedHalves<T>(nl: Newline<T>, a: seq<T>, b: seq<T>, p: Position)
    requires |a| >= 1 && |b| >= 1 && Split(a, b).d >= 2
    ensures Shaped(a, DiffRange(nl, a, b, p).edits)
    decreases |a| + |b|, 0
  {
    hide DiffRange, Split, Count, OneSided, SingleEdit;
    DiffCases(nl, a, b, p);
    var s := Split(a, b);
    var first := DiffRange(nl, a[..s.x], b[..s.y], p);
    var mid := Count(nl, first.at, b[s.y..s.v]);
    var second := DiffRange(nl, a[s.u..], b[s.v..], mid);
    assert DiffRange(nl, a, b, p).edits == first.edits + second.edits;
    DiffShaped(nl, a[..s.x], b[..s.y], p);
    DiffShaped(nl, a[s.u..], b[s.v..], mid);
    assert a[..s.x] == a[0..s.x];
    assert a[s.u..] == a[s.u..|a|];
    ShapedLift(a, 0, s.x, first.edits);
    ShapedLift(a, s.u, |a|, second.edits);
  }

  // ---------------------------------------------------------------------------
  // Positions

  /** `q` is the position the tracker reports at index `q.index` of `base`,
      counting from the origin. */
  ghost predicate Marks<T>(nl: Newline<T>, base: seq<T>, q: Position) {
    0 <= q.index <= |base| && q == Count(nl, Origin, base[..q.index])
  }

  /** Every start and end reported is such a position. */
  ghost predicate AllMarked<T>(nl: Newline<T>, base: seq<T>, edits: seq<Edit<T>>) {
    forall e | e in edits :: Marks(nl, base, e.start) && Marks(nl, base, e.end)
  }

  /** Counting part of `b` after `pre` reaches a position of `pre + b`. */
  lemma MarksAfter<T>(nl: Newline<T>, pre: seq<T>, b: seq<T>, p: Position, k: int)
    requires p == Count(nl, Origin, pre) && 0 <= k <= |b|
    ensures Marks(nl, pre + b, Count(nl, p, b[..k]))
  {
    CountConcat(nl, Origin, pre, b[..k]);
    assert (pre + b)[..|pre| + k] == pre + b[..k];
  }

  /** A position of a prefix is a position of the whole. */
  lemma AllMarkedExtend<T>(nl: Newline<T>, base: seq<T>, more: seq<T>, edits: seq<Edit<T>>)
    requires AllMarked(nl, base, edits)
    ensures AllMarked(nl, base + more, edits)
  {
    forall e | e in edits
      ensures Marks(nl, base + more, e.start) && Marks(nl, base + more, e.end)
    {
      assert (base + more)[..e.start.index] == base[..e.start.index];
      assert (base + more)[..e.end.index] == base[..e.end.index];
    }
  }

  /** With an empty side the one edit's ends are tracked positions. */
  lemma MarkedOneSided<T>(nl: Newline<T>, pre: seq<T>, a: seq<T>, b: seq<T>, p: Position)
    requires |a| == 0 || |b| == 0
    requires p == Count(nl, Origin, pre)
    ensures AllMarked(nl, pre + b, OneSided(nl, a, b, p).edits)
  {
    hide OneSided, Count;
    var e := OneSided(nl, a, b, p).edits[0];
    assert OneSided(nl, a, b, p).edits == [e];
    MarksAfter(nl, pre, b, p, 0);
    MarksAfter(nl, pre, b, p, |b|);
    assert b[..|b|] == b;
    CountEmpty(nl, p);
    assert b[..0] == [];
  }

  /** With distance 1 the single edit's ends are tracked positions. */
  lemma MarkedSingle<T>(nl: Newline<T>, pre: seq<T>, a: seq<T>, b: seq<T>, p: Position)
    requires |a| >= 1 && |b| >= 1 && Split(a, b).d == 1
    requires p == Count(nl, Origin, pre)
    ensures AllMarked(nl, pre + b, SingleEdit(nl, a, b, Split(a, b), p).edits)
  {
    hide SingleEdit, Split, Count;
    var s := Split(a, b);
    var e := SingleEdit(nl, a, b, s, p).edits[0];
    assert SingleEdit(nl, a, b, s, p).edits == [e];
    if |a| > |b| {
      MarksAfter(nl, pre, b, p, s.y);
    } else {
      MarksAfter(nl, pre, b, p, s.y - 1);
      MarksAfter(nl, pre, b, p, s.y);
    }
  }

  /** Every start and end `diff` reports is the line and column the tracker
      computes for that index of the base from the origin: `count` keeps the
      tracker in step with the index (diff.go:48-63, 146-192). */
  lemma {:induction false} DiffMarked<T>(nl: Newline<T>, pre: seq<T>, a: seq<T>, b: seq<T>, p: Position)
    requires p == Count(nl, Origin, pre)
    ensures AllMarked(nl, pre + b, DiffRange(nl, a, b, p).edits)
    decreases |a| + |b|, 1
  {
    DiffCases(nl, a, b, p);
    hide DiffRange, Split, Count, OneSided, SingleEdit;
    if |a| == 0 || |b| == 0 {
      MarkedOneSided(nl, pre, a, b, p);
    } else if Split(a, b).d == 0 {
    } else if Split(a, b).d == 1 {
      MarkedSingle(nl, pre, a, b, p);
    } else {
      MarkedHalves(nl, pre, a, b, p);
    }
  }

  /** The split case of `DiffMarked`: the second half starts where the
      tracker has counted the first half and the snake. */
  lemma {:induction false} MarkedHalves<T>(nl: Newline<T>, pre: seq<T>, a: seq<T>, b: seq<T>, p: Position)
    requires |a| >= 1 && |b| >= 1 && Split(a, b).d >= 2
    requires p == Count(nl, Origin, pre)
    ensures AllMarked(nl, pre + b, DiffRange(nl, a, b, p).edits)
    decreases |a| + |b|, 0
  {
    hide DiffRange, Split, Count, OneSided, SingleEdit;
    DiffCases(nl, a, b, p);
    HalvesAdvance(nl, a, b, p);
    var s := Split(a, b);
    var first := DiffRange(nl, a[..s.x], b[..s.y], p);
    var mid := Count(nl, first.at, b[s.y..s.v]);
    var second := DiffRange(nl, a[s.u..], b[s.v..], mid);
    assert DiffRange(nl, a, b, p).edits == first.edits + second.edits;
    DiffMarked(nl, pre, a[..s.x], b[..s.y], p);
    AllMarkedExtend(nl, pre + b[..s.y], b[s.y..], first.edits);
    assert pre + b[..s.y] + b[s.y..] == pre + b;
    CountConcat(nl, Origin, pre, b[..s.v]);
    DiffMarked(nl, pre + b[..s.v], a[s.u..], b[s.v..], mid);
    assert pre + b[..s.v] + b[s.v..] == pre + b;
  }

  // ---------------------------------------------------------------------------
  // The entry point

  /** `diff` reports no edit exactly when the ranges are equal and not empty;
      two empty ranges still get one empty edit (diff.go:149-155). */
  lemma DiffEmpty<T>(nl: Newline<T>, a: seq<T>, b: seq<T>, p: Position)
    ensures DiffRange(nl, a, b, p).edits == [] <==> a == b && a != []
  {
    DiffCases(nl, a, b, p);
    DiffCost(nl, a, b, p);
    DistZero(a, b);
    hide DiffRange, Split, Count, OneSided, SingleEdit;
    assert ScriptCost<T>([]) == 0;
  }

  /** What the lemmas above give for the whole of `a` and `b` from the
      origin. */
  lemma DiffFacts<T>(nl: Newline<T>, a: seq<T>, b: seq<T>)
    ensures ApplyEdits(b, DiffRange(nl, a, b, Origin).edits) == Some(a)
    ensures ScriptCost(DiffRange(nl, a, b, Origin).edits) == Dist(a, b)
    ensures Ordered(0, |b|, DiffRange(nl, a, b, Origin).edits)
    ensures a != [] || b != [] ==> Shaped(a, DiffRange(nl, a, b, Origin).edits)
    ensures AllMarked(nl, b, DiffRange(nl, a, b, Origin).edits)
    ensures DiffRange(nl, a, b, Origin).edits == [] <==> a == b && a != []
  {
    hide DiffRange, Split, Count, OneSided, SingleEdit, ApplyWindow, Dist, Ordered, Shaped, AllMarked;
    assert b[0..|b|] == b;
    assert [] + b == b;
    CountEmpty(nl, Origin);
    DiffRoundTrip(nl, a, b, Origin, b);
    DiffCost(nl, a, b, Origin);
    DiffOrdered(nl, a, b, Origin);
    DiffShaped(nl, a, b, Origin);
    DiffMarked(nl, [], a, b, Origin);
    DiffEmpty(nl, a, b, Origin);
  }

  /** `Diff` (diff.go:194-209): the edits that turn the base `b` into `a`,
      with positions relative to the start of `b`. Applying them to `b`
      yields `a`; their size is the edit distance; they are ordered; each is
      a deletion or an insertion of a slice of `a`; every position carries
      the line and column the tracker counts for its index; and there are
      none exactly when `a` and `b` are equal and not empty. */
  function Diff<T(==)>(nl: Newline<T>, a: seq<T>, b: seq<T>): (r: seq<Edit<T>>)
    ensures ApplyEdits(b, r) == Some(a)
    ensures ScriptCost(r) == Dist(a, b)
    ensures Ordered(0, |b|, r)
    ensures a != [] || b != [] ==> Shaped(a, r)
    ensures AllMarked(nl, b, r)
    ensures r == [] <==> a == b && a != []
  {
    DiffFacts(nl, a, b);
    DiffRange(nl, a, b, Origin).edits
  }

  /** No ordered script that turns `b` into `a` is smaller than the one
      `Diff` reports. */
  lemma DiffMinimal<T>(nl: Newline<T>, a: seq<T>, b: seq<T>, edits: seq<Edit<T>>)
    requires Ordered(0, |b|, edits) && ApplyEdits(b, edits) == Some(a)
    ensures ScriptCost(Diff(nl, a, b)) <= ScriptCost(edits)
  {
    CostBoundsDistance(b, 0, |b|, edits);
    assert b[0..|b|] == b;
  }

  /** Without a newline predicate every reported position is on line 0 with
      the column equal to the index (diff.go:49-53). */
  lemma DiffFlat<T>(a: seq<T>, b: seq<T>)
    ensures forall e | e in Diff(NoNewline, a, b) ::
              e.start == Position(e.start.index, 0, e.start.index) && e.end == Position(e.end.index, 0, e.end.index)
  {
    var r := Diff(NoNewline, a, b);
    forall e | e in r
      ensures e.start == Position(e.start.index, 0, e.start.index) && e.end == Position(e.end.index, 0, e.end.index)
    {
      assert Marks(NoNewline, b, e.start) && Marks(NoNewline, b, e.end);
      CountFromOriginFlat(b[..e.start.index]);
      CountFromOriginFlat(b[..e.end.index]);
    }
  }
}
