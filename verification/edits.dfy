/** Edit scripts and their application `applyEdits` (diff_test.go:10-26).

An edit replaces the elements of the base sequence from `start.Index` up to
`end.Index` by `replacement`. Applying a script copies the base between
consecutive edits and splices in each replacement. Go's slice expressions
panic on out-of-range bounds; here that outcome is `None`.
 */
module Edits {
  import opened Positions
  import opened EditGraph

  /** `edit` (diff_test.go:10-13); a nil replacement is the empty sequence. */
  datatype Edit<T> = Edit(start: Position, end: Position, replacement: seq<T>)

  datatype Option<T> = None | Some(value: T)

  /** The application loop of `applyEdits` from index `i`, with the final copy
      ending at `j` rather than at the end of `src` (diff_test.go:18-25). */
  function ApplyWindow<T>(src: seq<T>, i: int, j: int, edits: seq<Edit<T>>): Option<seq<T>>
    decreases |edits|
  {
    if edits == [] then
      if 0 <= i <= j <= |src| then Some(src[i..j]) else None
    else
      var e := edits[0];
      if 0 <= i <= e.start.index <= |src| then
        match ApplyWindow(src, e.end.index, j, edits[1..])
        case None => None
        case Some(rest) => Some(src[i..e.start.index] + e.replacement + rest)
      else None
  }

  /** `applyEdits` (diff_test.go:15-26). */
  function ApplyEdits<T>(src: seq<T>, edits: seq<Edit<T>>): Option<seq<T>> {
    ApplyWindow(src, 0, |src|, edits)
  }

  /** Where the copy before edit `t` starts: `i` for the first edit, the end
      of the previous edit otherwise. */
  function Resume<T>(i: int, edits: seq<Edit<T>>, t: nat): int
    requires t <= |edits|
  {
    if t == 0 then i else edits[t - 1].end.index
  }

  /** Every slice `applyEdits` takes is in bounds: each copy starts at a
      non-negative index no later than the next edit's start, and the last
      copy ends no earlier than it starts. */
  ghost predicate Applicable<T>(n: int, i: int, j: int, edits: seq<Edit<T>>) {
    && (forall t :: 0 <= t < |edits| ==> 0 <= Resume(i, edits, t) <= edits[t].start.index <= n)
    && 0 <= Resume(i, edits, |edits|) <= j <= n
  }

  /** The total number of base elements removed: the sum of `end - start`. */
  function Removed<T>(edits: seq<Edit<T>>): int {
    if edits == [] then 0 else Removed(edits[..|edits| - 1]) + (edits[|edits| - 1].end.index - edits[|edits| - 1].start.index)
  }

  /** The total number of elements inserted. */
  function Inserted<T>(edits: seq<Edit<T>>): nat {
    if edits == [] then 0 else Inserted(edits[..|edits| - 1]) + |edits[|edits| - 1].replacement|
  }

  /** The size of a script: elements removed plus elements inserted. */
  function ScriptCost<T>(edits: seq<Edit<T>>): int {
    Removed(edits) + Inserted(edits)
  }

  /** Each edit removes a forward range, and the ranges come in order without
      overlapping, inside `[i, j]`. */
  ghost predicate Ordered<T>(i: int, j: int, edits: seq<Edit<T>>) {
    && (forall t :: 0 <= t < |edits| ==> Resume(i, edits, t) <= edits[t].start.index <= edits[t].end.index)
    && Resume(i, edits, |edits|) <= j
  }

  /** The rest of an ordered script is ordered from the end of its first
      edit, which removes a forward range from where the window starts. */
  lemma OrderedTail<T>(i: int, j: int, edits: seq<Edit<T>>)
    requires edits != [] && Ordered(i, j, edits)
    ensures i <= edits[0].start.index <= edits[0].end.index
    ensures Ordered(edits[0].end.index, j, edits[1..])
  {
    var t := edits[0].end.index;
    assert Resume(i, edits, 0) == i;
    forall u | 0 <= u < |edits| - 1
      ensures Resume(t, edits[1..], u) <= edits[1..][u].start.index <= edits[1..][u].end.index
    {
      ResumeTail(i, edits, u + 1);
      assert edits[1..][u] == edits[u + 1];
    }
    ResumeTail(i, edits, |edits|);
  }

  /** Replacing `del` by `rep` between a common prefix costs at most their
      sizes on top of the distance between what follows. */
  lemma DistSplice<T>(pre: seq<T>, rep: seq<T>, rest: seq<T>, del: seq<T>, tail: seq<T>)
    ensures Dist(pre + rep + rest, pre + del + tail) <= |rep| + |del| + Dist(rest, tail)
  {
    assert pre + rep + rest == pre + (rep + rest);
    assert pre + del + tail == pre + (del + tail);
    DistConcat(pre, rep + rest, pre, del + tail);
    DistConcat(rep, rest, del, tail);
    DistZero(pre, pre);
    DistBounds(rep, del);
  }

  /** An ordered script's window is not empty-backwards. */
  lemma {:induction false} OrderedWithin<T>(i: int, j: int, edits: seq<Edit<T>>)
    requires Ordered(i, j, edits)
    ensures i <= j
    decreases |edits|
  {
    if edits != [] {
      var t := edits[0].end.index;
      OrderedTail(i, j, edits);
      OrderedWithin(t, j, edits[1..]);
    }
  }

  // ---------------------------------------------------------------------------
  // Properties of application

  /** The empty script returns the base unchanged. */
  lemma ApplyNothing<T>(src: seq<T>)
    ensures ApplyEdits(src, []) == Some(src)
  {
    assert src[0..|src|] == src;
  }

  /** The empty script copies the window. */
  lemma ApplyCopy<T>(src: seq<T>, i: int, j: int)
    requires 0 <= i <= j <= |src|
    ensures ApplyWindow(src, i, j, []) == Some(src[i..j])
  {
  }

  /** Dropping the first edit moves the resumption points down by one. */
  lemma ResumeTail<T>(i: int, edits: seq<Edit<T>>, t: nat)
    requires 1 <= t <= |edits|
    ensures Resume(i, edits, t) == Resume(edits[0].end.index, edits[1..], t - 1)
  {
  }

  /** Application succeeds exactly when every slice is in bounds. */
  lemma {:induction false} ApplyDefined<T>(src: seq<T>, i: int, j: int, edits: seq<Edit<T>>)
    ensures ApplyWindow(src, i, j, edits).Some? <==> Applicable(|src|, i, j, edits)
    decreases |edits|
  {
    if edits != [] {
      var e := edits[0];
      ApplyDefined(src, e.end.index, j, edits[1..]);
      forall t | 1 <= t <= |edits|
        ensures Resume(i, edits, t) == Resume(e.end.index, edits[1..], t - 1)
      {
        ResumeTail(i, edits, t);
      }
      if Applicable(|src|, i, j, edits) {
        assert Resume(i, edits, 0) == i;
        forall t | 0 <= t < |edits| - 1
          ensures 0 <= Resume(e.end.index, edits[1..], t) <= edits[1..][t].start.index <= |src|
        {
          assert edits[1..][t] == edits[t + 1];
        }
      }
      if ApplyWindow(src, i, j, edits).Some? {
        forall t | 0 <= t < |edits|
          ensures 0 <= Resume(i, edits, t) <= edits[t].start.index <= |src|
        {
          if t > 0 {
            assert edits[1..][t - 1] == edits[t];
          }
        }
      }
    }
  }

  /** The result's length: the window, less what the edits remove, plus what
      they insert. */
  lemma {:induction false} ApplyLength<T>(src: seq<T>, i: int, j: int, edits: seq<Edit<T>>)
    requires ApplyWindow(src, i, j, edits).Some?
    ensures |ApplyWindow(src, i, j, edits).value| == j - i - Removed(edits) + Inserted(edits)
    decreases |edits|
  {
    if edits != [] {
      var e := edits[0];
      ApplyLength(src, e.end.index, j, edits[1..]);
      SumsFront(edits);
    }
  }

  /** The sums split off the first edit as well as the last. */
  lemma {:induction false} SumsFront<T>(edits: seq<Edit<T>>)
    requires edits != []
    ensures Removed(edits) == (edits[0].end.index - edits[0].start.index) + Removed(edits[1..])
    ensures Inserted(edits) == |edits[0].replacement| + Inserted(edits[1..])
    decreases |edits|
  {
    if |edits| > 1 {
      var init := edits[..|edits| - 1];
      SumsFront(init);
      assert init[1..] == edits[1..][..|edits[1..]| - 1];
      assert init[0] == edits[0];
    }
  }

  /** The sums add up over concatenated scripts. */
  lemma {:induction false} SumsConcat<T>(e1: seq<Edit<T>>, e2: seq<Edit<T>>)
    ensures Removed(e1 + e2) == Removed(e1) + Removed(e2)
    ensures Inserted(e1 + e2) == Inserted(e1) + Inserted(e2)
    decreases |e2|
  {
    if e2 == [] {
      assert e1 + e2 == e1;
    } else {
      var init := e2[..|e2| - 1];
      SumsConcat(e1, init);
      assert (e1 + e2)[..|e1 + e2| - 1] == e1 + init;
    }
  }

  /** Two scripts applied to windows `[i, j]` and `[k, l]` with `j <= k`
      combine into one script over `[i, l]` that also copies `[j, k]`. */
  lemma {:induction false} ApplyJoin<T>(src: seq<T>, i: int, j: int, k: int, l: int, e1: seq<Edit<T>>, e2: seq<Edit<T>>)
    requires 0 <= j <= k <= |src|
    requires ApplyWindow(src, i, j, e1).Some? && ApplyWindow(src, k, l, e2).Some?
    ensures ApplyWindow(src, i, l, e1 + e2) ==
              Some(ApplyWindow(src, i, j, e1).value + src[j..k] + ApplyWindow(src, k, l, e2).value)
    decreases |e1|
  {
    var r2 := ApplyWindow(src, k, l, e2).value;
    if e1 == [] {
      assert e1 + e2 == e2;
      if e2 == [] {
        assert src[i..l] == src[i..j] + src[j..k] + src[k..l];
      } else {
        var e := e2[0];
        var rest := ApplyWindow(src, e.end.index, l, e2[1..]).value;
        assert src[i..e.start.index] == src[i..j] + src[j..k] + src[k..e.start.index];
        assert src[i..e.start.index] + e.replacement + rest == src[i..j] + src[j..k] + r2;
      }
    } else {
      var e := e1[0];
      assert (e1 + e2)[0] == e && (e1 + e2)[1..] == e1[1..] + e2;
      ApplyJoin(src, e.end.index, j, k, l, e1[1..], e2);
      var r1 := ApplyWindow(src, e.end.index, j, e1[1..]).value;
      var head := src[i..e.start.index] + e.replacement;
      assert head + (r1 + src[j..k] + r2) == (head + r1) + src[j..k] + r2;
    }
  }

  /** One edit applied to the window `[i, j]` of the base. */
  lemma ApplySingle<T>(src: seq<T>, i: int, j: int, e: Edit<T>)
    requires 0 <= i <= e.start.index <= e.end.index <= j <= |src|
    ensures ApplyWindow(src, i, j, [e]) == Some(src[i..e.start.index] + e.replacement + src[e.end.index..j])
  {
  }

  /** No script that removes forward ranges in order turns the window
      `[i, j]` of `src` into a sequence at a smaller distance than its
      size: a script's cost bounds the distance. */
  lemma {:induction false} CostBoundsDistance<T>(src: seq<T>, i: int, j: int, edits: seq<Edit<T>>)
    requires 0 <= i <= j <= |src|
    requires Ordered(i, j, edits) && ApplyWindow(src, i, j, edits).Some?
    ensures Dist(ApplyWindow(src, i, j, edits).value, src[i..j]) <= ScriptCost(edits)
    decreases |edits|
  {
    if edits == [] {
      DistZero(src[i..j], src[i..j]);
    } else {
      var e := edits[0];
      var s, t := e.start.index, e.end.index;
      var rest := ApplyWindow(src, t, j, edits[1..]).value;
      OrderedTail(i, j, edits);
      OrderedWithin(t, j, edits[1..]);
      CostBoundsDistance(src, t, j, edits[1..]);
      SumsFront(edits);
      assert src[i..j] == src[i..s] + src[s..t] + src[t..j];
      DistSplice(src[i..s], e.replacement, rest, src[s..t], src[t..j]);
    }
  }

  // ---------------------------------------------------------------------------
  // Building scripts

  /** The cost of a one-edit script. */
  lemma ScriptCostSingle<T>(e: Edit<T>)
    ensures ScriptCost([e]) == (e.end.index - e.start.index) + |e.replacement|
  {
    assert [e][..0] == [];
    assert Removed([e]) == Removed<T>([]) + (e.end.index - e.start.index);
    assert Inserted([e]) == Inserted<T>([]) + |e.replacement|;
  }

  /** One forward edit inside the window is an ordered script. */
  lemma OrderedSingle<T>(i: int, j: int, e: Edit<T>)
    requires i <= e.start.index <= e.end.index <= j
    ensures Ordered(i, j, [e])
  {
    assert Resume(i, [e], 0) == i;
    assert Resume(i, [e], 1) == e.end.index;
  }

  /** Ordered scripts over consecutive windows `[i, j]` and `[k, l]`, with
      `j <= k`, concatenate to an ordered script over `[i, l]`. */
  lemma OrderedJoin<T>(i: int, j: int, k: int, l: int, e1: seq<Edit<T>>, e2: seq<Edit<T>>)
    requires j <= k && Ordered(i, j, e1) && Ordered(k, l, e2)
    ensures Ordered(i, l, e1 + e2)
  {
    var e := e1 + e2;
    forall t | 0 <= t <= |e|
      ensures t <= |e1| ==> Resume(i, e, t) == Resume(i, e1, t)
      ensures |e1| < t ==> Resume(i, e, t) == Resume(k, e2, t - |e1|)
    {
      if 0 < t <= |e1| {
        assert e[t - 1] == e1[t - 1];
      } else if |e1| < t {
        assert e[t - 1] == e2[t - 1 - |e1|];
      }
    }
    forall t | 0 <= t < |e|
      ensures Resume(i, e, t) <= e[t].start.index <= e[t].end.index
    {
      if t < |e1| {
        assert e[t] == e1[t];
      } else {
        assert e[t] == e2[t - |e1|];
        if t == |e1| {
          assert Resume(k, e2, 0) == k;
        }
      }
    }
    if e2 == [] {
      assert Resume(k, e2, 0) == k;
    }
  }
}
