/** The expected edit list of `TestDiffEdits` (diff_test.go:116-162), held
against the model.

The test diffs "CBABAC" into "ABCABBA" without a newline predicate and
expects five edits. The script it lists is a correct, ordered script with
the positions the tracker reports, and the script `Diff` reports is no
longer than it.
 */
module TestVectors {
  import opened EditGraph
  import opened Positions
  import opened Edits
  import opened Differ

  /** The expected edits (diff_test.go:126-150). */
  const Expected: seq<Edit<char>> := [
    Edit(Flat(0), Flat(1), []),
    Edit(Flat(1), Flat(1), "A"),
    Edit(Flat(2), Flat(2), "C"),
    Edit(Flat(4), Flat(4), "B"),
    Edit(Flat(5), Flat(6), [])
  ]

  /** Applied to "CBABAC" the expected script yields "ABCABBA". */
  lemma ExpectedApplies()
    ensures ApplyEdits("CBABAC", Expected) == Some("ABCABBA")
  {
    var src := "CBABAC";
    var e := Expected;
    assert e[5..] == [];
    assert src[6..6] == [];
    assert ApplyWindow(src, 6, 6, e[5..]) == Some([]);
    assert e[4..][0] == e[4] && e[4..][1..] == e[5..];
    assert src[4..5] + [] + [] == "A";
    assert ApplyWindow(src, 4, 6, e[4..]) == Some("A");
    assert e[3..][0] == e[3] && e[3..][1..] == e[4..];
    assert src[2..4] + "B" + "A" == "ABBA";
    assert ApplyWindow(src, 2, 6, e[3..]) == Some("ABBA");
    assert e[2..][0] == e[2] && e[2..][1..] == e[3..];
    assert src[1..2] + "C" + "ABBA" == "BCABBA";
    assert ApplyWindow(src, 1, 6, e[2..]) == Some("BCABBA");
    assert e[1..][0] == e[1] && e[1..][1..] == e[2..];
    assert src[1..1] + "A" + "BCABBA" == "ABCABBA";
    assert ApplyWindow(src, 1, 6, e[1..]) == Some("ABCABBA");
    assert src[0..0] + [] + "ABCABBA" == "ABCABBA";
  }

  /** The expected edits are in order within the base. */
  lemma ExpectedOrdered()
    ensures Ordered(0, 6, Expected)
  {
    var e := Expected;
    forall t | 0 <= t <= |e|
      ensures Resume(0, e, t) == [0, 1, 1, 2, 4, 6][t]
    {
    }
  }

  /** The expected positions are those the tracker reports. */
  lemma ExpectedMarked()
    ensures AllMarked(NoNewline, "CBABAC", Expected)
  {
    var src := "CBABAC";
    forall q | q in Expected
      ensures Marks(NoNewline, src, q.start) && Marks(NoNewline, src, q.end)
    {
      CountFromOriginFlat(src[..q.start.index]);
      CountFromOriginFlat(src[..q.end.index]);
    }
  }

  /** The expected script removes two elements and inserts three. */
  lemma ExpectedCost()
    ensures ScriptCost(Expected) == 5
  {
    var e := Expected;
    SumsFront(e);
    SumsFront(e[1..]);
    SumsFront(e[2..]);
    SumsFront(e[3..]);
    SumsFront(e[4..]);
    assert e[5..] == [];
  }

  /** The expected script turns "CBABAC" into "ABCABBA", its edits are in
      order and at tracked positions, it costs five, and `Diff` reports a
      script no longer than it. */
  lemma ExpectedScript()
    ensures ApplyEdits("CBABAC", Expected) == Some("ABCABBA")
    ensures Ordered(0, 6, Expected)
    ensures AllMarked(NoNewline, "CBABAC", Expected)
    ensures ScriptCost(Expected) == 5
    ensures ScriptCost(Diff(NoNewline, "ABCABBA", "CBABAC")) <= 5
  {
    hide Diff, ApplyWindow, ScriptCost, Ordered, AllMarked;
    ExpectedApplies();
    ExpectedOrdered();
    ExpectedMarked();
    ExpectedCost();
    DiffMinimal(NoNewline, "ABCABBA", "CBABAC", Expected);
  }

  /** The `TestDiff` table (diff_test.go:88-105): pairs of target and base. */
  const Table: seq<(string, string)> := [
    ("ABCABBA", "CBABAC"), ("ABCABBA", "ABCABBA"), ("", ""), ("", "0"),
    ("0", "110"), ("1111", "0"), ("0", "11111"), ("0BA", "1BB"),
    ("AAC", "AC"), ("0B0", "11BB0"), ("000000000", "0001111"), ("01001100", "0000000")
  ]

  /** Every row of the table round-trips (diff_test.go:106-113). Equal
      non-empty inputs yield no edit, and two empty inputs still yield one. */
  lemma TableRoundTrips()
    ensures forall i :: 0 <= i < |Table| ==>
              ApplyEdits(Table[i].1, Diff(NoNewline, Table[i].0, Table[i].1)) == Some(Table[i].0)
    ensures Diff(NoNewline, "ABCABBA", "ABCABBA") == []
    ensures Diff(NoNewline, "", "") != []
  {
  }
}
