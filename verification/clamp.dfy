/** The diagonal clamps of the middle-snake search (diff.go:3-21).

In the edit graph of a sequence `a` of length `n` against a sequence `b` of
length `m`, diagonal `k` holds the points `(x, y)` with `x - y == k`. A path of
`d` non-diagonal edges that stays inside the graph can only end on a diagonal
`k` with `-d <= k <= d`, `-m <= k <= n` and `k` of the same parity as `d`.
`MinK` and `MaxK` bound the diagonals each search round visits.
 */
module Clamp {

  /** The diagonals a `d`-edit path can end on in an `n` by `m` edit graph. */
  predicate InRange(n: int, m: int, d: int, k: int) {
    -d <= k <= d && -m <= k <= n && (k - d) % 2 == 0
  }

  /** Lower clamp `mink`: `-d` while `d <= m`, else `-m` moved up by one when
      `m` and `d` differ in parity (the low bit of `m ^ d`). */
  function MinK(m: int, d: int): (r: int)
    ensures r >= -d && r >= -m
    ensures r - 2 < -d || r - 2 < -m
    ensures (r - d) % 2 == 0
    ensures m >= 1 && d >= 0 ==> -m <= r <= 0
    ensures d <= m ==> r == -d
  {
    if d <= m then -d
    else if (m + d) % 2 == 1 then -(m - 1)
    else -m
  }

  /** Upper clamp `maxk` as the source writes it: `min(n, d)`, with no parity
      adjustment. */
  function MaxK(n: int, d: int): (r: int)
    ensures r <= n && r <= d
    ensures r == n || r == d
  {
    if d <= n then d else n
  }

  /** Upper clamp adjusted like `MinK`: `n` is moved down by one when `n` and `d`
      differ in parity. */
  function MaxKAdjusted(n: int, d: int): (r: int)
    ensures r <= d && r <= n
    ensures r + 2 > d || r + 2 > n
    ensures (r - d) % 2 == 0
    ensures d <= n ==> r == d
  {
    if d <= n then d
    else if (n + d) % 2 == 1 then n - 1
    else n
  }

  /** Which upper clamp a search uses. */
  datatype UpperClamp = AsWritten | ParityAdjusted

  function Upper(c: UpperClamp, n: int, d: int): int {
    match c
    case AsWritten => MaxK(n, d)
    case ParityAdjusted => MaxKAdjusted(n, d)
  }

  /** The range of diagonals is exactly the diagonals between the two clamps
      that have the parity of `d`: `MinK` is its least and `MaxKAdjusted` its
      greatest element. */
  lemma RangeBetweenClamps(n: int, m: int, d: int, k: int)
    ensures InRange(n, m, d, k) <==>
              MinK(m, d) <= k <= MaxKAdjusted(n, d) && (k - d) % 2 == 0
  {
  }

  /** `MaxK` as written has the parity of `d` only when `d <= n` or `n` and `d`
      agree in parity; otherwise it is one past the last diagonal in range. */
  lemma MaxKParity(n: int, d: int)
    ensures (MaxK(n, d) - d) % 2 == 0 <==> d <= n || (n - d) % 2 == 0
    ensures (MaxK(n, d) - d) % 2 != 0 ==> MaxK(n, d) == MaxKAdjusted(n, d) + 1
  {
  }

  /** A neighbour the sweep reads from the previous round is in that round's
      range: `k - 1` whenever `k` is not the lower clamp, `k + 1` whenever `k`
      is not the upper clamp, and `k + 1` also at the lower clamp. */
  lemma Neighbours(n: int, m: int, d: int, k: int)
    requires n >= 1 && m >= 1 && d >= 1
    requires InRange(n, m, d, k)
    ensures k != MinK(m, d) ==> InRange(n, m, d - 1, k - 1)
    ensures k != MaxKAdjusted(n, d) ==> InRange(n, m, d - 1, k + 1)
    ensures k == MinK(m, d) ==> InRange(n, m, d - 1, k + 1)
    ensures k == MaxKAdjusted(n, d) ==> InRange(n, m, d - 1, k - 1)
  {
  }

  /** A diagonal between this round's clamps with the other parity is in the
      previous round's range; the previous range has at most two more
      diagonals, `-m` and `n`. */
  lemma PreviousRange(n: int, m: int, d: int, k: int)
    requires d >= 1
    ensures MinK(m, d) <= k <= MaxKAdjusted(n, d) && (k - d) % 2 != 0 ==>
              InRange(n, m, d - 1, k)
    ensures InRange(n, m, d - 1, k) && k != -m && k != n ==>
              MinK(m, d) <= k <= MaxKAdjusted(n, d)
  {
  }

  /** The reverse partner a search round `d1` tests lies between that round's
      clamps when it is in the range of round `d1` itself, or of round
      `d1 - 1` and not one of that round's extra diagonals `-m` and `n`. */
  lemma PartnerBetweenClamps(n: int, m: int, d1: int, d2: int, kk: int)
    requires InRange(n, m, d2, kk)
    requires d1 == d2 || (d1 == d2 + 1 && d2 >= 0 && kk != -m && kk != n)
    ensures MinK(m, d1) <= kk <= MaxKAdjusted(n, d1)
  {
    if d1 == d2 {
      RangeBetweenClamps(n, m, d1, kk);
    } else {
      PreviousRange(n, m, d1, kk);
    }
  }

  /** With `n - m` odd, the partner `(n - m) - k` of a diagonal of round `d`
      has the other parity: between the clamps it is in round `d - 1`'s range,
      and in round 0 it is never between the clamps. */
  lemma OddPartner(n: int, m: int, d: int, k: int)
    requires d >= 0 && InRange(n, m, d, k) && (n - m) % 2 == 1
    ensures d == 0 ==> !(MinK(m, d) <= (n - m) - k <= MaxKAdjusted(n, d))
    ensures d >= 1 && MinK(m, d) <= (n - m) - k <= MaxKAdjusted(n, d) ==>
              InRange(n, m, d - 1, (n - m) - k)
  {
    var q := (n - m) / 2;
    var p := (k - d) / 2;
    assert n - m == 2 * q + 1 && k - d == 2 * p;
    assert ((n - m) - k) - d == 2 * (q - p - d) + 1;
    if d >= 1 {
      PreviousRange(n, m, d, (n - m) - k);
    }
  }

  /** With `n - m` even, the partner of a diagonal of round `d` between the
      clamps is in round `d`'s range. */
  lemma EvenPartner(n: int, m: int, d: int, k: int)
    requires InRange(n, m, d, k) && (n - m) % 2 == 0
    ensures MinK(m, d) <= (n - m) - k <= MaxKAdjusted(n, d) ==> InRange(n, m, d, (n - m) - k)
  {
    var q := (n - m) / 2;
    var p := (k - d) / 2;
    assert n - m == 2 * q && k - d == 2 * p;
    assert ((n - m) - k) - d == 2 * (q - p - d);
    assert (((n - m) - k) - d) % 2 == 0;
  }

  /** Consecutive rounds use diagonals of different parity. */
  lemma RoundsDisjoint(n: int, m: int, d: int, k: int, j: int)
    requires InRange(n, m, d, k) && InRange(n, m, d - 1, j)
    ensures j != k
  {
    var p := (k - d) / 2;
    var q := (j - d + 1) / 2;
    assert k - d == 2 * p && j - d + 1 == 2 * q;
  }

  /** Two diagonals of one round are at least two apart. */
  lemma SameRoundApart(n: int, m: int, d: int, k: int, j: int)
    requires InRange(n, m, d, k) && InRange(n, m, d, j) && j != k
    ensures j <= k - 2 || j >= k + 2
  {
    var p := (k - d) / 2;
    var q := (j - d) / 2;
    assert k - d == 2 * p && j - d == 2 * q;
  }

  /** Neighbouring diagonals never belong to the same round. */
  lemma NeighbourOutOfRound(n: int, m: int, d: int, k: int)
    requires InRange(n, m, d, k)
    ensures !InRange(n, m, d, k + 1) && !InRange(n, m, d, k - 1)
  {
    var p := (k - d) / 2;
    assert k - d == 2 * p;
  }
}
