/** `diff` and `Diff` as the program runs them, with either upper clamp
(diff.go:146-209).

`Differ.DiffRange` is the recursion with the parity-adjusted clamp, whose
snakes are known to shrink both ranges. With the source's own clamp that is
not known, so this copy of the recursion carries fuel: each level of
recursion spends one unit. `None` stands for a run that would fail: a snake
whose corners a slice of `ma` or `mb` would reject, or a recursion that does
not end. The sentinel snake `(0, 0, 0, 0, -1)` is of the second kind: its
second half is the whole range again. With the corrected clamp and fuel at
least the total length, this recursion is `DiffRange` exactly.
 */
module ClampedDiff {
  import opened Clamp
  import opened Snakes
  import opened Positions
  import opened Edits
  import opened Differ

  /** The corners of `s` lie inside the ranges, so every slice the `d >= 1`
      branches take is defined; for `d == 1` the end point is past the origin
      on the longer side, so `ma[mx - 1:mx]` and `mb[:my - 1]` are defined
      (diff.go:169-191). */
  predicate Sliceable(a: nat, b: nat, s: Snake) {
    && 0 <= s.x <= s.u <= a && 0 <= s.y <= s.v <= b
    && (s.d == 1 && a > b ==> 1 <= s.x)
    && (s.d == 1 && a <= b ==> 1 <= s.y)
  }

  /** `diff` on the slices `a` and `b` with the tracker at `p`, using the
      upper clamp `c` in `middlesnake`, with `fuel` levels of recursion. */
  function DiffWith<T(==)>(c: UpperClamp, nl: Newline<T>, a: seq<T>, b: seq<T>, p: Position, fuel: nat): Option<Run<T>>
    decreases fuel
  {
    if |a| == 0 || |b| == 0 then Some(OneSided(nl, a, b, p))
    else if fuel == 0 then None
    else
      var s := MiddleSnakeWith(c, a, b);
      if s.d == 0 then Some(Run([], p))
      else if !Sliceable(|a|, |b|, s) then None
      else if s.d == 1 then Some(SingleEdit(nl, a, b, s, p))
      else
        match DiffWith(c, nl, a[..s.x], b[..s.y], p, fuel - 1)
        case None => None
        case Some(first) =>
          match DiffWith(c, nl, a[s.u..], b[s.v..], Count(nl, first.at, b[s.y..s.v]), fuel - 1)
          case None => None
          case Some(second) => Some(Run(first.edits + second.edits, second.at))
  }

  /** `Diff` with the upper clamp `c` (diff.go:197-209): `None` when the run
      fails within `fuel` levels of recursion. */
  function DiffAs<T(==)>(c: UpperClamp, nl: Newline<T>, a: seq<T>, b: seq<T>, fuel: nat): Option<seq<Edit<T>>> {
    match DiffWith(c, nl, a, b, Origin, fuel)
    case None => None
    case Some(r) => Some(r.edits)
  }

  /** The snake `diff` splits at is what `middlesnake` returns with the
      parity-adjusted clamp. */
  lemma SplitIsAdjusted<T>(a: seq<T>, b: seq<T>)
    requires |a| >= 1 && |b| >= 1
    ensures Split(a, b) == MiddleSnakeWith(ParityAdjusted, a, b)
    ensures Sliceable(|a|, |b|, Split(a, b))
  {
  }

  /** With an empty side the run makes its one edit whatever the fuel. */
  lemma DiffWithOneSided<T>(c: UpperClamp, nl: Newline<T>, a: seq<T>, b: seq<T>, p: Position, fuel: nat)
    requires |a| == 0 || |b| == 0
    ensures DiffWith(c, nl, a, b, p, fuel) == Some(OneSided(nl, a, b, p))
  {
  }

  /** The cases of `DiffWith`, one call deep, for a snake inside the ranges. */
  lemma DiffWithCases<T>(c: UpperClamp, nl: Newline<T>, a: seq<T>, b: seq<T>, p: Position, fuel: nat)
    requires |a| >= 1 && |b| >= 1 && fuel >= 1
    requires Sliceable(|a|, |b|, MiddleSnakeWith(c, a, b))
    ensures var s := MiddleSnakeWith(c, a, b);
            && (s.d == 0 ==> DiffWith(c, nl, a, b, p, fuel) == Some(Run([], p)))
            && (s.d == 1 ==> DiffWith(c, nl, a, b, p, fuel) == Some(SingleEdit(nl, a, b, s, p)))
    ensures var s := MiddleSnakeWith(c, a, b);
            s.d >= 2 || s.d < 0 ==>
              DiffWith(c, nl, a, b, p, fuel) ==
                match DiffWith(c, nl, a[..s.x], b[..s.y], p, fuel - 1)
                case None => None
                case Some(first) =>
                  match DiffWith(c, nl, a[s.u..], b[s.v..], Count(nl, first.at, b[s.y..s.v]), fuel - 1)
                  case None => None
                  case Some(second) => Some(Run(first.edits + second.edits, second.at))
  {
    hide MiddleSnakeWith, Count, OneSided, SingleEdit;
  }

  /** With the parity-adjusted clamp and fuel at least `|a| + |b|`, the run
      never fails and reports exactly the edits and final tracker of
      `DiffRange`: the properties proved of `DiffRange` are properties of the
      program with the corrected clamp. */
  lemma {:induction false} DiffWithAdjusted<T>(nl: Newline<T>, a: seq<T>, b: seq<T>, p: Position, fuel: nat)
    requires fuel >= |a| + |b|
    ensures DiffWith(ParityAdjusted, nl, a, b, p, fuel) == Some(DiffRange(nl, a, b, p))
    decreases |a| + |b|
  {
    hide DiffWith, DiffRange, Split, MiddleSnakeWith, Count, OneSided, SingleEdit;
    DiffCases(nl, a, b, p);
    if |a| == 0 || |b| == 0 {
      DiffWithOneSided(ParityAdjusted, nl, a, b, p, fuel);
    } else {
      var s := Split(a, b);
      SplitIsAdjusted(a, b);
      DiffWithCases(ParityAdjusted, nl, a, b, p, fuel);
      if s.d >= 2 {
        var first := DiffRange(nl, a[..s.x], b[..s.y], p);
        DiffWithAdjusted(nl, a[..s.x], b[..s.y], p, fuel - 1);
        DiffWithAdjusted(nl, a[s.u..], b[s.v..], Count(nl, first.at, b[s.y..s.v]), fuel - 1);
      }
    }
  }

  /** With the parity-adjusted clamp and fuel at least `|a| + |b|`, the
      program's `Diff` reports exactly `Differ.Diff`'s edits. */
  lemma DiffAsAdjusted<T>(nl: Newline<T>, a: seq<T>, b: seq<T>, fuel: nat)
    requires fuel >= |a| + |b|
    ensures DiffAs(ParityAdjusted, nl, a, b, fuel) == Some(Diff(nl, a, b))
  {
    DiffWithAdjusted(nl, a, b, Origin, fuel);
  }
}
