/** The whole program with the source's upper clamp `maxk = min(n, d)`, on
two inputs (diff.go:15-21, 146-209).

On `a = "A"` against `b = "AAABB"` the top-level snake has `d == 6` where the
distance is 4. The recursion still reaches "A", but it deletes all five base
elements and inserts the "A" again: a script of size 6 where `Differ.Diff`
reports one of size 4. On the `TestDiff` row `("0", "11111")`
(diff_test.go:98) the program as written reaches "0" with a script of the
minimal size.

The second half of both runs diffs one element against two equal, different
elements, so that search is stated once for any such elements `e != f`.
 */
module AsWrittenDiff {
  import opened Clamp
  import opened EditGraph
  import opened Snakes
  import opened Positions
  import opened Edits
  import opened Differ
  import opened ClampedDiff
  import opened AsWrittenClamp

  // ---------------------------------------------------------------------------
  // One element against two

  /** The rounds of `middlesnake([e], [f, f])` with the source's clamp: the
      forward sweep of round 2 finds the overlap on diagonal -2. */
  lemma OneTwoRounds<T>(e: T, f: T)
    requires e != f
    ensures Forward(AsWritten, [e], [f, f], [0, 0, 0, 0], [0, 0, 0, 0], 0, 0) == Continue([0, 0, 0, 0])
    ensures Backward(AsWritten, [e], [f, f], [0, 0, 0, 0], [0, 0, 0, 0], 0, 0) == Continue([0, 0, 0, 0])
    ensures Forward(AsWritten, [e], [f, f], [0, 0, 0, 0], [0, 0, 0, 0], 1, -1) == Continue([0, 0, 0, 1])
    ensures Backward(AsWritten, [e], [f, f], [0, 0, 0, 1], [0, 0, 0, 0], 1, 1) == Continue([0, 0, 0, 1])
    ensures Forward(AsWritten, [e], [f, f], [0, 0, 0, 1], [0, 0, 0, 1], 2, -2) == Found(Snake(0, 2, 0, 2, 3))
  {
    var a, b := [e], [f, f];
    assert Rev(a) == a && Rev(b) == b;
    assert [0, 0, 0, 0][2 := 0] == [0, 0, 0, 0];
    assert Forward(AsWritten, a, b, [0, 0, 0, 0], [0, 0, 0, 0], 0, 2) == Continue([0, 0, 0, 0]);
    assert Forward(AsWritten, a, b, [0, 0, 0, 0], [0, 0, 0, 0], 0, 0) == Continue([0, 0, 0, 0]);
    assert Backward(AsWritten, a, b, [0, 0, 0, 0], [0, 0, 0, 0], 0, -2) == Continue([0, 0, 0, 0]);
    assert Backward(AsWritten, a, b, [0, 0, 0, 0], [0, 0, 0, 0], 0, 0) == Continue([0, 0, 0, 0]);
    assert [0, 0, 0, 0][1 := 0] == [0, 0, 0, 0];
    assert [0, 0, 0, 0][3 := 1] == [0, 0, 0, 1];
    assert Forward(AsWritten, a, b, [0, 0, 0, 1], [0, 0, 0, 0], 1, 3) == Continue([0, 0, 0, 1]);
    assert Forward(AsWritten, a, b, [0, 0, 0, 0], [0, 0, 0, 0], 1, 1) == Continue([0, 0, 0, 1]);
    assert Forward(AsWritten, a, b, [0, 0, 0, 0], [0, 0, 0, 0], 1, -1) == Continue([0, 0, 0, 1]);
    assert [0, 0, 0, 1][1 := 0] == [0, 0, 0, 1];
    assert Backward(AsWritten, a, b, [0, 0, 0, 1], [0, 0, 0, 1], 1, -3) == Continue([0, 0, 0, 1]);
    assert Backward(AsWritten, a, b, [0, 0, 0, 1], [0, 0, 0, 1], 1, -1) == Continue([0, 0, 0, 1]);
    assert Backward(AsWritten, a, b, [0, 0, 0, 1], [0, 0, 0, 0], 1, 1) == Continue([0, 0, 0, 1]);
    assert Forward(AsWritten, a, b, [0, 0, 0, 1], [0, 0, 0, 1], 2, -2) == Found(Snake(0, 2, 0, 2, 3));
  }

  /** `middlesnake([e], [f, f])` with the source's clamp returns the empty
      snake at (0, 2) with `d == 3`: delete both, then insert. */
  lemma OneTwoSnake<T>(e: T, f: T)
    requires e != f
    ensures MiddleSnakeWith(AsWritten, [e], [f, f]) == Snake(0, 2, 0, 2, 3)
  {
    OneTwoRounds(e, f);
    assert Zeros(4) == [0, 0, 0, 0];
    var a, b := [e], [f, f];
    assert Search(AsWritten, a, b, [0, 0, 0, 1], [0, 0, 0, 1], 2) == Snake(0, 2, 0, 2, 3);
    assert Search(AsWritten, a, b, [0, 0, 0, 0], [0, 0, 0, 0], 1) == Snake(0, 2, 0, 2, 3);
    assert Search(AsWritten, a, b, [0, 0, 0, 0], [0, 0, 0, 0], 0) == Snake(0, 2, 0, 2, 3);
  }

  /** The program as written on `[e]` against `[f, f]` at a flat position:
      it deletes both base elements and then inserts `e`. */
  lemma OneTwoDiff<T>(e: T, f: T, i: int, fuel: nat)
    requires e != f && fuel >= 1
    ensures DiffWith(AsWritten, NoNewline, [e], [f, f], Flat(i), fuel)
              == Some(Run([Edit(Flat(i), Flat(i + 2), []), Edit(Flat(i + 2), Flat(i + 2), [e])], Flat(i + 2)))
  {
    hide MiddleSnakeWith;
    var a, b := [e], [f, f];
    var nl: Newline<T> := NoNewline;
    OneTwoSnake(e, f);
    DiffWithCases(AsWritten, nl, a, b, Flat(i), fuel);
    assert a[..0] == [] && b[..2] == b && a[0..] == a && b[2..] == [] && b[2..2] == [];
    var del := Run([Edit(Flat(i), Flat(i + 2), [])], Flat(i + 2));
    var ins := Run([Edit(Flat(i + 2), Flat(i + 2), [e])], Flat(i + 2));
    DiffWithOneSided(AsWritten, nl, a[..0], b[..2], Flat(i), fuel - 1);
    assert DiffWith(AsWritten, nl, a[..0], b[..2], Flat(i), fuel - 1) == Some(del);
    assert Count(nl, del.at, b[2..2]) == Flat(i + 2);
    DiffWithOneSided(AsWritten, nl, a[0..], b[2..], Flat(i + 2), fuel - 1);
    assert DiffWith(AsWritten, nl, a[0..], b[2..], Flat(i + 2), fuel - 1) == Some(ins);
    assert del.edits + ins.edits == [Edit(Flat(i), Flat(i + 2), []), Edit(Flat(i + 2), Flat(i + 2), [e])];
  }

  /** Deleting [0, 3) and [3, 5) of a five-element `b` and inserting `a` at
      its end turns `b` into `a`, with a script of size `5 + |a|`. */
  lemma DeleteThenInsert<T>(a: seq<T>, b: seq<T>)
    requires |b| == 5
    ensures ApplyEdits(b, [Edit(Flat(0), Flat(3), []), Edit(Flat(3), Flat(5), []), Edit(Flat(5), Flat(5), a)]) == Some(a)
    ensures ScriptCost([Edit(Flat(0), Flat(3), []), Edit(Flat(3), Flat(5), []), Edit(Flat(5), Flat(5), a)]) == 5 + |a|
  {
    var script := [Edit(Flat(0), Flat(3), []), Edit(Flat(3), Flat(5), []), Edit(Flat(5), Flat(5), a)];
    assert script[1..][1..] == script[2..] && script[2..][1..] == [];
    assert b[5..5] == [] && b[3..3] == [] && b[0..0] == [];
    assert ApplyWindow(b, 5, 5, []) == Some(b[5..5]);
    assert ApplyWindow(b, 5, 5, script[2..]) == Some([] + a + []);
    assert [] + a + [] == a;
    assert ApplyWindow(b, 5, 5, script[1..][1..]) == Some(a);
    assert b[3..3] + [] + a == a;
    assert script[1..][0].start.index == 3 && script[1..][0].end.index == 5 && script[1..][0].replacement == [];
    assert ApplyWindow(b, 3, 5, script[1..]) == Some(a);
    assert script[0].start.index == 0 && script[0].end.index == 3 && script[0].replacement == [];
    assert ApplyWindow(b, 0, 5, script) == Some(a);
    SumsFront(script);
    SumsFront(script[1..]);
    SumsFront(script[2..]);
  }

  /** A run of the program as written on one element against five, when the
      top-level snake is the empty one at (0, 3) and the last two elements
      of `b` are equal to each other but not to `a[0]`: it deletes [0, 3),
      then deletes [3, 5) and inserts `a` at 5. That script turns `b` into
      `a` and has size 6. */
  lemma ThreeThenTwo<T>(a: seq<T>, b: seq<T>, fuel: nat)
    requires |a| == 1 && |b| == 5 && a[0] != b[3] && b[3] == b[4] && fuel >= 2
    requires var s := MiddleSnakeWith(AsWritten, a, b); s == Snake(0, 3, 0, 3, s.d) && s.d >= 2
    ensures DiffAs(AsWritten, NoNewline, a, b, fuel)
              == Some([Edit(Flat(0), Flat(3), []), Edit(Flat(3), Flat(5), []), Edit(Flat(5), Flat(5), a)])
    ensures ApplyEdits(b, [Edit(Flat(0), Flat(3), []), Edit(Flat(3), Flat(5), []), Edit(Flat(5), Flat(5), a)]) == Some(a)
    ensures ScriptCost([Edit(Flat(0), Flat(3), []), Edit(Flat(3), Flat(5), []), Edit(Flat(5), Flat(5), a)]) == 6
  {
    hide MiddleSnakeWith;
    var e, f := a[0], b[3];
    DiffWithCases(AsWritten, NoNewline, a, b, Origin, fuel);
    assert a == [e] && a[..0] == [] && a[0..] == a && b[3..] == [f, f] && b[3..3] == [];
    var first := Run([Edit(Flat(0), Flat(3), [])], Flat(3));
    var second := Run([Edit(Flat(3), Flat(5), []), Edit(Flat(5), Flat(5), a)], Flat(5));
    DiffWithOneSided(AsWritten, NoNewline, a[..0], b[..3], Origin, fuel - 1);
    assert DiffWith(AsWritten, NoNewline, a[..0], b[..3], Origin, fuel - 1) == Some(first);
    assert Count(NoNewline, first.at, b[3..3]) == Flat(3);
    OneTwoDiff(e, f, 3, fuel - 1);
    assert DiffWith(AsWritten, NoNewline, a[0..], b[3..], Flat(3), fuel - 1) == Some(second);
    var script := [Edit(Flat(0), Flat(3), []), Edit(Flat(3), Flat(5), []), Edit(Flat(5), Flat(5), a)];
    assert first.edits + second.edits == script;
    assert DiffWith(AsWritten, NoNewline, a, b, Origin, fuel) == Some(Run(script, Flat(5)));
    DeleteThenInsert(a, b);
  }

  // ---------------------------------------------------------------------------
  // "A" against "AAABB"

  /** The program as written on "A" against "AAABB": it deletes [0, 3),
      deletes [3, 5) and inserts "A" at 5. The script turns "AAABB" into "A",
      but its size is 6 while the distance is 4, the size of the script
      `Differ.Diff` reports. */
  lemma AsWrittenLonger(fuel: nat)
    requires fuel >= 2
    ensures DiffAs(AsWritten, NoNewline, "A", "AAABB", fuel)
              == Some([Edit(Flat(0), Flat(3), []), Edit(Flat(3), Flat(5), []), Edit(Flat(5), Flat(5), "A")])
    ensures ApplyEdits("AAABB", DiffAs(AsWritten, NoNewline, "A", "AAABB", fuel).value) == Some("A")
    ensures ScriptCost(DiffAs(AsWritten, NoNewline, "A", "AAABB", fuel).value) == 6
    ensures Dist("A", "AAABB") == 4 && ScriptCost(Diff(NoNewline, "A", "AAABB")) == 4
  {
    var a, b := "A", "AAABB";
    AsWrittenResult();
    DistanceFour();
    assert b[3] == b[4] == 'B';
    ThreeThenTwo(a, b, fuel);
  }

  // ---------------------------------------------------------------------------
  // One element against five

  /** The rounds of `middlesnake([e], [f, f, f, f, f])` with the source's
      clamp: the reverse sweep of round 3 finds the overlap on diagonal 1. */
  lemma OneFiveRounds<T>(e: T, f: T)
    requires e != f
    ensures var a, b := [e], [f, f, f, f, f];
            && Forward(AsWritten, a, b, [0, 0, 0, 0, 0, 0, 0], [0, 0, 0, 0, 0, 0, 0], 0, 0) == Continue([0, 0, 0, 0, 0, 0, 0])
            && Backward(AsWritten, a, b, [0, 0, 0, 0, 0, 0, 0], [0, 0, 0, 0, 0, 0, 0], 0, 0) == Continue([0, 0, 0, 0, 0, 0, 0])
            && Forward(AsWritten, a, b, [0, 0, 0, 0, 0, 0, 0], [0, 0, 0, 0, 0, 0, 0], 1, -1) == Continue([0, 0, 0, 0, 0, 0, 1])
            && Backward(AsWritten, a, b, [0, 0, 0, 0, 0, 0, 1], [0, 0, 0, 0, 0, 0, 0], 1, 1) == Continue([0, 0, 0, 0, 0, 0, 1])
    ensures var a, b := [e], [f, f, f, f, f];
            && Forward(AsWritten, a, b, [0, 0, 0, 0, 0, 0, 1], [0, 0, 0, 0, 0, 0, 1], 2, -2) == Continue([0, 0, 0, 0, 0, 1, 1])
            && Backward(AsWritten, a, b, [0, 0, 0, 0, 0, 1, 1], [0, 0, 0, 0, 0, 0, 1], 2, 1) == Continue([0, 0, 0, 0, 1, 0, 1])
    ensures var a, b := [e], [f, f, f, f, f];
            && Forward(AsWritten, a, b, [0, 0, 0, 0, 0, 1, 1], [0, 0, 0, 0, 1, 0, 1], 3, -3) == Continue([0, 0, 0, 0, 1, 1, 2])
            && Backward(AsWritten, a, b, [0, 0, 0, 0, 1, 1, 2], [0, 0, 0, 0, 1, 0, 1], 3, 1) == Found(Snake(0, 3, 0, 3, 6))
  {
    var a, b := [e], [f, f, f, f, f];
    assert Rev(a) == a && Rev(b) == b;
    assert [0, 0, 0, 0, 0, 0, 0][5 := 0] == [0, 0, 0, 0, 0, 0, 0];
    assert Forward(AsWritten, a, b, [0, 0, 0, 0, 0, 0, 0], [0, 0, 0, 0, 0, 0, 0], 0, 2) == Continue([0, 0, 0, 0, 0, 0, 0]);
    assert Forward(AsWritten, a, b, [0, 0, 0, 0, 0, 0, 0], [0, 0, 0, 0, 0, 0, 0], 0, 0) == Continue([0, 0, 0, 0, 0, 0, 0]);
    assert Backward(AsWritten, a, b, [0, 0, 0, 0, 0, 0, 0], [0, 0, 0, 0, 0, 0, 0], 0, -2) == Continue([0, 0, 0, 0, 0, 0, 0]);
    assert Backward(AsWritten, a, b, [0, 0, 0, 0, 0, 0, 0], [0, 0, 0, 0, 0, 0, 0], 0, 0) == Continue([0, 0, 0, 0, 0, 0, 0]);
    assert [0, 0, 0, 0, 0, 0, 0][4 := 0] == [0, 0, 0, 0, 0, 0, 0];
    assert [0, 0, 0, 0, 0, 0, 0][6 := 1] == [0, 0, 0, 0, 0, 0, 1];
    assert Forward(AsWritten, a, b, [0, 0, 0, 0, 0, 0, 1], [0, 0, 0, 0, 0, 0, 0], 1, 3) == Continue([0, 0, 0, 0, 0, 0, 1]);
    assert Forward(AsWritten, a, b, [0, 0, 0, 0, 0, 0, 0], [0, 0, 0, 0, 0, 0, 0], 1, 1) == Continue([0, 0, 0, 0, 0, 0, 1]);
    assert Forward(AsWritten, a, b, [0, 0, 0, 0, 0, 0, 0], [0, 0, 0, 0, 0, 0, 0], 1, -1) == Continue([0, 0, 0, 0, 0, 0, 1]);
    assert [0, 0, 0, 0, 0, 0, 1][4 := 0] == [0, 0, 0, 0, 0, 0, 1];
    assert Backward(AsWritten, a, b, [0, 0, 0, 0, 0, 0, 1], [0, 0, 0, 0, 0, 0, 1], 1, -3) == Continue([0, 0, 0, 0, 0, 0, 1]);
    assert Backward(AsWritten, a, b, [0, 0, 0, 0, 0, 0, 1], [0, 0, 0, 0, 0, 0, 1], 1, -1) == Continue([0, 0, 0, 0, 0, 0, 1]);
    assert Backward(AsWritten, a, b, [0, 0, 0, 0, 0, 0, 1], [0, 0, 0, 0, 0, 0, 0], 1, 1) == Continue([0, 0, 0, 0, 0, 0, 1]);
    assert [0, 0, 0, 0, 0, 0, 1][3 := 0] == [0, 0, 0, 0, 0, 0, 1];
    assert [0, 0, 0, 0, 0, 0, 1][5 := 1] == [0, 0, 0, 0, 0, 1, 1];
    assert Forward(AsWritten, a, b, [0, 0, 0, 0, 0, 1, 1], [0, 0, 0, 0, 0, 0, 1], 2, 2) == Continue([0, 0, 0, 0, 0, 1, 1]);
    assert Forward(AsWritten, a, b, [0, 0, 0, 0, 0, 0, 1], [0, 0, 0, 0, 0, 0, 1], 2, 0) == Continue([0, 0, 0, 0, 0, 1, 1]);
    assert Forward(AsWritten, a, b, [0, 0, 0, 0, 0, 0, 1], [0, 0, 0, 0, 0, 0, 1], 2, -2) == Continue([0, 0, 0, 0, 0, 1, 1]);
    assert [0, 0, 0, 0, 0, 0, 1][6 := 1] == [0, 0, 0, 0, 0, 0, 1];
    assert [0, 0, 0, 0, 0, 0, 1][4 := 1] == [0, 0, 0, 0, 1, 0, 1];
    assert Backward(AsWritten, a, b, [0, 0, 0, 0, 0, 1, 1], [0, 0, 0, 0, 1, 0, 1], 2, -3) == Continue([0, 0, 0, 0, 1, 0, 1]);
    assert Backward(AsWritten, a, b, [0, 0, 0, 0, 0, 1, 1], [0, 0, 0, 0, 0, 0, 1], 2, -1) == Continue([0, 0, 0, 0, 1, 0, 1]);
    assert Backward(AsWritten, a, b, [0, 0, 0, 0, 0, 1, 1], [0, 0, 0, 0, 0, 0, 1], 2, 1) == Continue([0, 0, 0, 0, 1, 0, 1]);
    assert [0, 0, 0, 0, 0, 1, 1][2 := 0] == [0, 0, 0, 0, 0, 1, 1];
    assert [0, 0, 0, 0, 0, 1, 1][4 := 1] == [0, 0, 0, 0, 1, 1, 1];
    assert [0, 0, 0, 0, 1, 1, 1][6 := 2] == [0, 0, 0, 0, 1, 1, 2];
    assert Forward(AsWritten, a, b, [0, 0, 0, 0, 1, 1, 2], [0, 0, 0, 0, 1, 0, 1], 3, 3) == Continue([0, 0, 0, 0, 1, 1, 2]);
    assert Forward(AsWritten, a, b, [0, 0, 0, 0, 1, 1, 1], [0, 0, 0, 0, 1, 0, 1], 3, 1) == Continue([0, 0, 0, 0, 1, 1, 2]);
    assert Forward(AsWritten, a, b, [0, 0, 0, 0, 0, 1, 1], [0, 0, 0, 0, 1, 0, 1], 3, -1) == Continue([0, 0, 0, 0, 1, 1, 2]);
    assert Forward(AsWritten, a, b, [0, 0, 0, 0, 0, 1, 1], [0, 0, 0, 0, 1, 0, 1], 3, -3) == Continue([0, 0, 0, 0, 1, 1, 2]);
    assert [0, 0, 0, 0, 1, 0, 1][6 := 1] == [0, 0, 0, 0, 1, 0, 1];
    assert Backward(AsWritten, a, b, [0, 0, 0, 0, 1, 1, 2], [0, 0, 0, 0, 1, 0, 1], 3, -1) == Found(Snake(0, 3, 0, 3, 6));
    assert Backward(AsWritten, a, b, [0, 0, 0, 0, 1, 1, 2], [0, 0, 0, 0, 1, 0, 1], 3, 1) == Found(Snake(0, 3, 0, 3, 6));
  }

  /** `middlesnake([e], [f, f, f, f, f])` with the source's clamp returns the
      empty snake at (0, 3) with `d == 6`. */
  lemma OneFiveSnake<T>(e: T, f: T)
    requires e != f
    ensures MiddleSnakeWith(AsWritten, [e], [f, f, f, f, f]) == Snake(0, 3, 0, 3, 6)
  {
    OneFiveRounds(e, f);
    var a, b := [e], [f, f, f, f, f];
    var z := [0, 0, 0, 0, 0, 0, 0];
    assert Zeros(7) == z;
    assert Search(AsWritten, a, b, [0, 0, 0, 0, 0, 1, 1], [0, 0, 0, 0, 1, 0, 1], 3) == Snake(0, 3, 0, 3, 6);
    assert Search(AsWritten, a, b, [0, 0, 0, 0, 0, 0, 1], [0, 0, 0, 0, 0, 0, 1], 2) == Snake(0, 3, 0, 3, 6);
    assert Search(AsWritten, a, b, z, z, 1) == Snake(0, 3, 0, 3, 6);
    assert Search(AsWritten, a, b, z, z, 0) == Snake(0, 3, 0, 3, 6);
  }

  /** The program as written on the `TestDiff` row ("0", "11111")
      (diff_test.go:98): it deletes [0, 3), deletes [3, 5) and inserts "0"
      at 5, a script of the minimal size 6 that turns "11111" into "0". */
  lemma AsWrittenTableRow(fuel: nat)
    requires fuel >= 2
    ensures DiffAs(AsWritten, NoNewline, "0", "11111", fuel)
              == Some([Edit(Flat(0), Flat(3), []), Edit(Flat(3), Flat(5), []), Edit(Flat(5), Flat(5), "0")])
    ensures ApplyEdits("11111", DiffAs(AsWritten, NoNewline, "0", "11111", fuel).value) == Some("0")
    ensures ScriptCost(DiffAs(AsWritten, NoNewline, "0", "11111", fuel).value) == Dist("0", "11111")
  {
    var a, b := "0", "11111";
    assert b == ['1', '1', '1', '1', '1'];
    OneFiveSnake('0', '1');
    ThreeThenTwo(a, b, fuel);
    DistDisjoint(a, b);
  }
}
