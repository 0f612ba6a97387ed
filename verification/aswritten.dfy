/** The source's upper clamp `maxk = min(n, d)` on a concrete input.

On `a = "A"` (n = 1) against `b = "AAABB"` (m = 5) every round from 2 on has
`d > n`. In round 2 `n` and `d` differ in parity, so the reverse sweep starts
on diagonal 1 and visits 1 and -1 instead of 0 and -2. Round 3 then reads
those stale reverse entries and reports a snake on a path of length 6, while
the distance is 4. With the parity-adjusted clamp the same input gives a
middle snake of length 4.
 */
module AsWrittenClamp {
  import opened Clamp
  import opened EditGraph
  import opened Frontier
  import opened Snakes

  lemma ZerosSeven()
    ensures Zeros(7) == [0, 0, 0, 0, 0, 0, 0]
  {
  }

  lemma Reversed()
    ensures Rev("A") == "A" && Rev("AAABB") == "BBAAA"
  {
    assert Rev("A") == "A";
    assert Rev("AAABB") == "BBAAA";
  }

  /** Round 0: the forward snake from (0, 0) matches one element. */
  lemma RoundZero()
    ensures Forward(AsWritten, "A", "AAABB", [0, 0, 0, 0, 0, 0, 0], [0, 0, 0, 0, 0, 0, 0], 0, 0)
              == Continue([0, 0, 0, 0, 0, 1, 0])
    ensures Backward(AsWritten, "A", "AAABB", [0, 0, 0, 0, 0, 1, 0], [0, 0, 0, 0, 0, 0, 0], 0, 0)
              == Continue([0, 0, 0, 0, 0, 0, 0])
  {
    Reversed();
  }

  /** Round 1: no overlap yet. */
  lemma RoundOne()
    ensures Forward(AsWritten, "A", "AAABB", [0, 0, 0, 0, 0, 1, 0], [0, 0, 0, 0, 0, 0, 0], 1, -1)
              == Continue([0, 0, 0, 0, 1, 1, 2])
    ensures Backward(AsWritten, "A", "AAABB", [0, 0, 0, 0, 1, 1, 2], [0, 0, 0, 0, 0, 0, 0], 1, 1)
              == Continue([0, 0, 0, 0, 0, 0, 1])
  {
    Reversed();
  }

  /** Round 2: the reverse sweep starts on diagonal 1, of the wrong parity. */
  lemma RoundTwo()
    ensures MaxK(1, 2) == 1 && MaxKAdjusted(1, 2) == 0
    ensures Forward(AsWritten, "A", "AAABB", [0, 0, 0, 0, 1, 1, 2], [0, 0, 0, 0, 0, 0, 1], 2, -2)
              == Continue([0, 0, 0, 1, 1, 2, 2])
    ensures Backward(AsWritten, "A", "AAABB", [0, 0, 0, 1, 1, 2, 2], [0, 0, 0, 0, 0, 0, 1], 2, 1)
              == Continue([0, 0, 0, 0, 1, 0, 1])
  {
    Reversed();
  }

  /** Round 3: the reverse test on diagonal -1 fires against the forward
      entry on diagonal -3. */
  lemma RoundThree()
    ensures Forward(AsWritten, "A", "AAABB", [0, 0, 0, 1, 1, 2, 2], [0, 0, 0, 0, 1, 0, 1], 3, -3)
              == Continue([0, 0, 1, 1, 2, 2, 3])
    ensures Backward(AsWritten, "A", "AAABB", [0, 0, 1, 1, 2, 2, 3], [0, 0, 0, 0, 1, 0, 1], 3, 1)
              == Found(Snake(0, 3, 0, 3, 6))
  {
    Reversed();
  }

  /** The search with the source's clamp returns the snake (0, 3)-(0, 3) with
      `d == 6`. */
  lemma AsWrittenResult()
    ensures MiddleSnakeWith(AsWritten, "A", "AAABB") == Snake(0, 3, 0, 3, 6)
  {
    ZerosSeven();
    RoundZero();
    RoundOne();
    RoundTwo();
    RoundThree();
  }

  /** The distance from "A" to "AAABB" is 4: keep the "A", insert "AABB". */
  lemma DistanceFour()
    ensures Dist("A", "AAABB") == 4
  {
    DistBounds("A", "AAABB");
    DistConcat("A", [], "A", "AABB");
    assert "A" + [] == "A" && "A" + "AABB" == "AAABB";
    DistZero("A", "A");
    DistBounds([], "AABB");
  }

  /** With the source's clamp the snake returned does not lie on a shortest
      path: its `d` is 6, the distance is 4. */
  lemma AsWrittenNotMiddle()
    ensures !IsMiddleSnake("A", "AAABB", MiddleSnakeWith(AsWritten, "A", "AAABB"))
  {
    AsWrittenResult();
    DistanceFour();
  }

  /** With the parity-adjusted clamp the same input gives a snake of length 4
      on a shortest path. */
  lemma AdjustedFindsDistance()
    ensures MiddleSnake("A", "AAABB").d == 4
    ensures IsMiddleSnake("A", "AAABB", MiddleSnake("A", "AAABB"))
  {
    DistanceFour();
  }
}
