# A verified model of a linear-space Myers diff

This project models the Go package `diff`, a generic sequence differ. `Diff(a, b, isNewline, edit)` reports, through the `edit` callback and in order, the edits that turn the base sequence `b` into the target `a`. Each edit has a start and an end position in `b` and a replacement. Positions carry an index and, when a newline predicate is given, a line and a column.

The engine is Myers' O(ND) algorithm in its linear-space form:
- `middlesnake` runs a forward and a reverse greedy search over the diagonals of the edit graph. It stops at the first round in which the two searches overlap. It returns a snake on a shortest edit path, together with the edit distance.
- `diff` splits both ranges around that snake and recurses. It emits one edit directly when one side is empty or the distance is 1.
- `count` moves a position tracker over the base elements it consumes.

The model is functional:
- the frontier arrays `v0`/`v1` are `seq<int>`;
- the sweeps and the round loop are recursive functions;
- the `edit` callback becomes the returned list of edits;
- the tracker is threaded through the recursion as a value.

The modules follow the source:

- `Clamp` covers `mink` and `maxk`, together with the range of diagonals a round may visit.
- `EditGraph` is the reference semantics: the cost `Cost(a, b, x, y)` of reaching a point of the edit graph, defined by the usual recurrence, and the edit distance `Dist(a, b)`.
- `Frontier` holds the mathematical frontier:
  - `Slide` is the snake;
  - `Start` is the neighbour choice;
  - `Reach` is the furthest point of a round.
  Its lemmas show that the frontier is sound and furthest-reaching, and that the searches meet.
- `Snakes` models `middlesnake` as written: the forward and reverse sweeps over the arrays, the overlap tests and the round loop. It proves that, with a corrected upper clamp, the result is a middle snake.
  - Every frontier access is within the arrays, since the sweeps index them directly and Dafny demands the bound at each access.
  - The search returns before its loop ends.
- `AsWrittenClamp` evaluates `middlesnake` with the source's own clamp on a concrete input and shows the snake it returns is not on a shortest path. See Findings.
- `ClampedDiff` is `diff` and `Diff` parameterised by the upper clamp, with fuel for the recursion. With the corrected clamp it is exactly `Differ`'s recursion.
- `AsWrittenDiff` runs the whole program with the source's clamp on two inputs. On `("A", "AAABB")` it reports a script longer than the distance. On the `TestDiff` row `("0", "11111")` its script is minimal.
- `Positions` covers `Position` and `count`.
- `Edits` covers the test file's `edit` record and `applyEdits`, together with the size of a script.
- `Differ` covers `diff` and `Diff`. It proves five things:
  - applying the reported edits to `b` gives `a`;
  - the script has exactly the edit distance as its size, and no ordered script is smaller;
  - the edits are ordered;
  - each edit is a deletion or an insertion of a slice of `a`;
  - every position is the one the tracker computes for its index.
- `TestVectors` holds the expected edits of `TestDiffEdits` against the model.

Two facts about the code are easy to miss, and the model follows the code in both:
- `Diff` of two empty sequences reports one empty edit, not zero edits. The `len(ma) == 0` branch of `diff` runs before any equality test. `Differ.DiffEmpty` states this.
- Each edit starts no earlier than the previous one ends; this is the predicate `Edits.Ordered`, and `Differ.DiffOrdered` proves it of every run. Starts need not strictly increase: an insertion and a deletion may share a start index.

## Model

| member | source | states |
|---|---|---|
| Clamp.MinK | diff.go:3-13 | The lower clamp is at least `-d` and at least `-m`, within two of the tighter bound, and has the parity of `d`. It is `-d` while `d <= m`. |
| Clamp.MaxKAdjusted | diff.go:15-21 | The corrected upper clamp mirrors `mink`. It is at most `d` and at most `n`, within two of the tighter bound, and has the parity of `d`. It is `d` while `d <= n`. |
| Clamp.MaxKParity | diff.go:15-21 | The source's `maxk` has the parity of `d` exactly when `d <= n` or `n` and `d` have equal parity. Otherwise it lies one above the corrected clamp. |
| Clamp.RangeBetweenClamps | diff.go:76-81 | A diagonal is one that a `d`-edit path can end on exactly when it lies between `mink` and the corrected `maxk` with the parity of `d`. |
| Clamp.Neighbours | diff.go:84-89 | Off the lower clamp, diagonal `k - 1` was in the previous round's range. Off the upper clamp, `k + 1` was. At the lower clamp `k + 1` was, and at the upper clamp `k - 1` was. So every array entry a sweep reads was written in the previous round. |
| Clamp.PartnerBetweenClamps | diff.go:100-106 | A diagonal of round `d2` lies between the clamps of round `d1` when `d1 == d2`. It also does so when `d1 == d2 + 1`, unless it is an edge diagonal `-m` or `n`. So the overlap test's range check accepts the entries the other sweep wrote. |
| Clamp.RoundsDisjoint | diff.go:76-81 | Consecutive rounds visit diagonals of different parity, so a sweep never overwrites an entry it still has to read. |
| EditGraph.CostParity | diff.go:76 | The cost of reaching `(x, y)` has the parity of `x + y`. |
| EditGraph.DistBounds | diff.go:76 | The distance is at least the length difference and at most `n + m`, and has the parity of `n + m`. So the round bound `(n + m + 1) / 2` is enough. |
| EditGraph.DistZero | diff.go:164-167 | The distance is zero exactly when the two sequences are equal. |
| EditGraph.DistRev | diff.go:111-130 | Reversing both sequences keeps the distance. This is the reverse search's view of the graph. |
| EditGraph.DistConcat | diff.go:188-190 | The distance of two concatenations is at most the sum of the parts' distances. This bounds the cost of the two halves `diff` recurses on. |
| EditGraph.SplitPoint | diff.go:65-144 | For every `t` up to the distance, some point on a shortest path costs exactly `t` to reach and the rest of the distance to leave. |
| Frontier.Slide | diff.go:93-98 | The snake moves forward from `x` and stops at the first position that does not match. |
| Frontier.ReachSound | diff.go:80-98 | A round-`d` frontier point on an in-range diagonal starts inside the graph and is reachable with at most `d` edits. |
| Frontier.ReachComplete | diff.go:80-98 | No point of a diagonal that is reachable with at most `d` edits lies beyond the round-`d` frontier on that diagonal. |
| Frontier.Complete | diff.go:100-106 | When the distance is `d1 + d2` with `d1` equal to `d2` or `d2 + 1`, some diagonal of round `d1` and its mirror in round `d2` overlap: the forward and reverse frontiers together cover `a`. |
| Snakes.Forward | diff.go:80-109 | A forward sweep either returns an updated array of the same length, or reports a snake with `d` field `2d - 1` whose runs in `a` and `b` have equal length. |
| Snakes.Backward | diff.go:111-140 | A reverse sweep either returns an updated array of the same length, or reports a snake with `d` field `2d`, translated back to forward coordinates, with equal-length runs. |
| Snakes.Search | diff.go:76-143 | From round `d`, the loop returns the `-1` sentinel or a snake whose `d` field is at least `2d - 1` and whose runs have equal length. |
| Snakes.ForwardTest | diff.go:100-106 | The source's odd-delta overlap test, read on the arrays, is the overlap of the forward snake with the reverse frontier on the mirrored diagonal. |
| Snakes.BackwardTest | diff.go:131-137 | The source's even-delta overlap test is the overlap of the reverse snake with the forward frontier on the mirrored diagonal. |
| Snakes.ForwardCorrect | diff.go:80-109 | With the corrected clamp, a forward sweep over a prepared array returns a middle snake if any diagonal fires. Otherwise it returns the full round-`d` frontier and no diagonal of the round fires. |
| Snakes.BackwardCorrect | diff.go:111-140 | The same for the reverse sweep, on the reversed graph. |
| Snakes.ForwardNotMissed | diff.go:100-106 | When the distance is `2d - 1`, some diagonal of round `d` passes the forward overlap test. |
| Snakes.BackwardNotMissed | diff.go:131-137 | When the distance is `2d`, some diagonal of round `d` passes the reverse overlap test. |
| Snakes.SearchCorrect | diff.go:76-143 | From any round not past the distance, the corrected search returns a middle snake. It never reaches the `-1` sentinel. |
| Snakes.MiddleSnake | diff.go:65-144 | With the corrected clamp, `middlesnake` returns a snake on a shortest path. Its `d` is the distance and splits into `ceil(d/2)` before the snake and `floor(d/2)` after it. `d` is 0 exactly when the inputs are equal. For `d == 1`, `(x, y)` ends the single edit: `x == y + 1` with `a[..x - 1] == b[..y]` when `a` is longer, and `y == x + 1` with `a[..x] == b[..y - 1]` otherwise. |
| AsWrittenClamp.RoundTwo | diff.go:111-140 | On `("A", "AAABB")` in round 2, the source's `maxk` is 1 where the corrected clamp is 0. The reverse sweep therefore starts on a diagonal of the wrong parity. The frontier arrays after both sweeps are given. |
| AsWrittenClamp.AsWrittenResult | diff.go:65-144 | With the source's clamp, `middlesnake("A", "AAABB")` returns `(0, 3, 0, 3, 6)`. |
| AsWrittenClamp.DistanceFour | diff.go:65-144 | The distance between `"A"` and `"AAABB"` is 4. |
| AsWrittenClamp.AsWrittenNotMiddle | diff.go:15-21 | The snake the source's clamp yields on that input is not a middle snake. |
| AsWrittenClamp.AdjustedFindsDistance | diff.go:15-21 | With the corrected clamp the same input gives a middle snake of length 4. |
| Positions.Count | diff.go:48-63 | `count` advances the index by the list's length. Without a newline predicate the line stays and the column becomes the index. |
| Positions.WalkLines | diff.go:55-62 | With a predicate, the line rises by the number of newlines counted. The column grows by the list's length when there are none, and otherwise counts the elements after the last newline. |
| Positions.CountConcat | diff.go:48-63 | Counting `s` and then `t` is counting `s + t`. |
| Positions.CountFromOriginFlat | diff.go:49-53 | Without a predicate, counting from the origin gives line 0 and the column equal to the index. |
| Edits.ApplyDefined | diff_test.go:15-26 | `applyEdits` succeeds, without an out-of-range slice, exactly when every copy starts at a non-negative index no later than the next edit's start. |
| Edits.ApplyLength | diff_test.go:15-26 | The result's length is the window's length, less what the edits remove, plus what they insert. |
| Edits.ApplyNothing | diff_test.go:15-26 | The empty script returns the base unchanged. |
| Edits.ApplyJoin | diff_test.go:18-25 | Scripts for consecutive windows concatenate. The result is the first part, the copied gap, then the second part. |
| Edits.OrderedJoin | diff_test.go:18-25 | Ordered scripts over consecutive windows concatenate to an ordered script. |
| Edits.CostBoundsDistance | diff_test.go:15-26 | Any ordered script that `applyEdits` accepts costs at least the distance between its result and the base. |
| Differ.Split | diff.go:164-191 | The snake `diff` splits at lies inside both ranges and copies equal runs. Its length is 0 exactly when the ranges are equal. For `d == 1` the end point is past the origin on the longer side. For `d >= 2` both halves are non-empty and unequal. |
| Differ.OneSided | diff.go:149-162 | With an empty side, `diff` reports one edit at the tracker: it deletes all of `b` up to the counted end, or it inserts all of `a`. The tracker ends after `b`. |
| Differ.SingleEdit | diff.go:169-187 | For `d == 1` the one edit either inserts `a[x - 1]` where `b[..y]` ends, or deletes `b[y - 1]`. The tracker ends after `b`. |
| Differ.DiffAdvances | diff.go:146-192 | After `diff` the tracker has counted the whole base range. The one exception is equal, non-empty ranges, where it does not move. |
| Differ.DiffRoundTrip | diff.go:146-192 | Applying the reported edits to any base that holds `b` at the tracker's index turns that window into `a`. |
| Differ.DiffCost | diff.go:146-192 | The reported script removes and inserts exactly the edit distance in elements. |
| Differ.DiffOrdered | diff.go:146-192 | Each reported edit removes a forward range that starts no earlier than the previous edit ends, all inside the base range. |
| Differ.DiffShaped | diff.go:194-196 | Unless both ranges are empty, each edit deletes a non-empty range with a nil replacement, or inserts a non-empty slice of `a` at one position. |
| Differ.DiffMarked | diff.go:146-192 | Every start and end reported is the position the tracker computes from the origin for that index of the base. |
| Differ.DiffEmpty | diff.go:149-167 | `diff` reports no edit exactly when the ranges are equal and not empty. |
| Differ.Diff | diff.go:194-209 | `Diff`'s edits turn `b` into `a` under `applyEdits`. They cost the edit distance, they are ordered, and each is a deletion or an insertion of a slice of `a`. Every position is tracked, and there are none exactly when `a == b` is non-empty. |
| Differ.DiffMinimal | diff.go:194-209 | No ordered script that turns `b` into `a` is smaller than the one `Diff` reports. |
| Differ.DiffFlat | diff.go:49-53 | Without a newline predicate every reported position is on line 0 with its column equal to its index. |
| ClampedDiff.DiffWithAdjusted | diff.go:146-192 | With the corrected clamp and enough fuel, `diff` with the clamp as a parameter never fails and reports exactly `Differ`'s edits and final tracker. |
| ClampedDiff.DiffAsAdjusted | diff.go:194-209 | With the corrected clamp and enough fuel, `Diff` with the clamp as a parameter reports exactly `Differ.Diff`'s edits, so every property of `Differ.Diff` holds for it. |
| AsWrittenDiff.OneTwoSnake | diff.go:65-144 | With the source's clamp, `middlesnake` on one element against two equal, different elements returns the empty snake at `(0, 2)` with `d == 3`. |
| AsWrittenDiff.OneTwoDiff | diff.go:146-192 | With the source's clamp, `diff` on one element against two equal, different elements, from any flat position, deletes both base elements and then inserts the target element. |
| AsWrittenDiff.AsWrittenLonger | diff.go:194-209 | With the source's clamp, `Diff("A", "AAABB")` deletes `[0, 3)`, deletes `[3, 5)` and inserts `"A"`. The script turns `"AAABB"` into `"A"` but has size 6, while the distance and `Differ.Diff`'s script have size 4. |
| AsWrittenDiff.OneFiveSnake | diff.go:65-144 | With the source's clamp, `middlesnake` on one element against five equal, different elements returns the empty snake at `(0, 3)` with `d == 6`. |
| AsWrittenDiff.AsWrittenTableRow | diff_test.go:98 | With the source's clamp, `Diff` on the `TestDiff` row `("0", "11111")` deletes `[0, 3)`, deletes `[3, 5)` and inserts `"0"`. The script turns `"11111"` into `"0"` and has the minimal size. |
| TestVectors.ExpectedApplies | diff_test.go:126-150 | The expected script of `TestDiffEdits` turns `"CBABAC"` into `"ABCABBA"`. |
| TestVectors.TableRoundTrips | diff_test.go:88-113 | Each pair of the `TestDiff` table round-trips through `Diff` and `applyEdits`. Diffing `"ABCABBA"` against itself yields no edit. Diffing two empty strings yields one edit. |
| TestVectors.ExpectedScript | diff_test.go:116-162 | The expected script is ordered, sits at tracked positions and costs 5. The script `Diff` reports for the same input costs at most 5. |

## Left out

- Frontier arrays: the source allocates `v0` and `v1` once and reslices them for every `middlesnake` call. The model gives each call fresh zeroed arrays, which is what the zeroing loop at diff.go:68-73 produces.
- Slice bounds: Go reslices `v0` up to its capacity. The model uses lengths, and the sizes agree. In `applyEdits`, Go's `src[i:edit.start.Index]` is bounded by the capacity of `src`, not its length. `Edits.ApplyWindow` bounds it by the length, so a start between the length and the capacity gives `None` where Go would copy past the end. The scripts `Diff` reports never start past the length of the base.
- Snake guard at negative indices: the source's snake loop would panic on a negative index. `Frontier.Slide` treats a position outside the graph as a mismatch instead. `Frontier.ReachSound` shows that, with the corrected clamp, every start the search uses is inside the graph.
- Differ.Diff: it is the program with the corrected clamp. `ClampedDiff.DiffAsAdjusted` shows that `ClampedDiff.DiffAs` with that clamp is the same function. With the source's clamp, `ClampedDiff.DiffAs` models the run, but its properties are proved only on the two inputs of `AsWrittenDiff`. On other inputs the source's clamp may pick a different script than `Differ.Diff`, or a longer one.
- ClampedDiff.DiffWith: the recursion depth is bounded by fuel. `None` stands for a panic on an out-of-range slice, or for recursion that would not end, as with the `-1` sentinel snake. The two are not told apart.
- Callbacks: `isNewline` is a pure total function. The `edit` callback is replaced by the returned list, so the side effects of callbacks and their re-entrancy are not modelled.
- Integers: they are unbounded. Go's `int` cannot overflow for inputs that fit in memory.
- Performance: the O((n + m) D) running time, the linear space bound and the recursion depth are not modelled.
- Tests: `diffAndApplyEdits` and `FuzzDiff` are instances of `Differ.Diff`'s first postcondition for the program with the corrected clamp. The benchmarks, which draw random inputs, are not modelled.
- TestVectors.TableRoundTrips: it is proved for the corrected `Diff`. For the program as written, the round trip is proved only on `("A", "AAABB")` and `("0", "11111")` (`AsWrittenDiff`), so `FuzzDiff`'s round trip for any input is not proved of the source's clamp.
- TestVectors.ExpectedScript: it does not show that `Diff` reports exactly the five listed edits, only that its script is no longer than them. Evaluating the middle-snake search symbolically on a 7-by-6 graph is out of proportion to what it would add.
- Tie-breaking: the sweeps `Snakes.Forward`/`Backward` break ties between neighbours as the source does, so the script `Differ.Diff` chooses is the one the corrected program chooses. With the source's clamp the choice can differ: on `("0", "11111")` the program as written deletes `[0, 3)`, deletes `[3, 5)` and inserts at 5 (`AsWrittenDiff.AsWrittenTableRow`), while the corrected program inserts at 4. No property about which minimal script is chosen is stated.

## Findings

| source | as written | input that shows it | evidently intended | confidence | as-written member | corrected member |
|---|---|---|---|---|---|---|
| diff.go:15-21 | `maxk` returns `min(n, d)` without the parity adjustment `mink` makes. When `d > n` and `n - d` is odd, the reverse sweep visits only diagonals of the wrong parity and reads stale frontier entries. | `middlesnake("A", "AAABB")` returns `(0, 3, 0, 3, 6)`, but the distance is 4. The snake is not on a shortest path. `Diff("A", "AAABB")` reports a script of size 6, not 4. | Move `n` down by one when `n` and `d` differ in parity, as `mink` does for `m`. | high; not executed | AsWrittenClamp.AsWrittenNotMiddle, AsWrittenDiff.AsWrittenLonger | Snakes.MiddleSnake, ClampedDiff.DiffAsAdjusted |
