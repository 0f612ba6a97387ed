/** Positions in the base sequence and the tracker `count` that advances them
(diff.go:23-63).

A position records the absolute index into the base sequence `b` and, when a
newline predicate is supplied, the line and column of that index. Without a
predicate the column simply follows the index.
 */
module Positions {

  /** `Position` (diff.go:23-28). */
  datatype Position = Position(index: int, line: int, column: int)

  /** Where the tracker starts: `differ`'s zero-valued fields (diff.go:199-206). */
  const Origin := Position(0, 0, 0)

  /** A position on line 0 whose column is its index, as the tracker
      reports without a newline predicate. */
  function Flat(i: int): Position {
    Position(i, 0, i)
  }

  /** The optional `isNewline` callback: nil, or a pure predicate. */
  datatype Newline<-T> = NoNewline | NewlineBy(isNewline: T -> bool)

  /** One element of the `count` loop: a newline starts the next line, any
      other element moves one column on. */
  function Step<T>(f: T -> bool, p: Position, e: T): Position {
    if f(e) then Position(p.index, p.line + 1, 0) else Position(p.index, p.line, p.column + 1)
  }

  /** The `count` loop over `list`, first element first (diff.go:55-62). */
  function Walk<T>(f: T -> bool, p: Position, list: seq<T>): (r: Position)
    ensures r.index == p.index
    decreases |list|
  {
    if list == [] then p else Walk(f, Step(f, p, list[0]), list[1..])
  }

  /** `count` (diff.go:48-63): the index moves past `list`; without a newline
      predicate the column is set to the new index, otherwise the loop walks
      the elements. */
  function Count<T>(nl: Newline<T>, p: Position, list: seq<T>): (r: Position)
    ensures r.index == p.index + |list|
    ensures nl.NoNewline? ==> r.line == p.line && r.column == r.index
  {
    var index := p.index + |list|;
    match nl
    case NoNewline => Position(index, p.line, index)
    case NewlineBy(f) => Walk(f, Position(index, p.line, p.column), list)
  }

  // ---------------------------------------------------------------------------
  // Lines and columns

  /** The number of newline elements of `list`, counted from its end. */
  function NewlinesIn<T>(f: T -> bool, list: seq<T>): nat
    decreases |list|
  {
    if list == [] then 0
    else NewlinesIn(f, list[..|list| - 1]) + (if f(list[|list| - 1]) then 1 else 0)
  }

  /** Walking one more element is one more step. */
  lemma {:induction false} WalkSnoc<T>(f: T -> bool, p: Position, list: seq<T>, e: T)
    ensures Walk(f, p, list + [e]) == Step(f, Walk(f, p, list), e)
    decreases |list|
  {
    if list == [] {
      assert [e][1..] == [];
    } else {
      assert (list + [e])[1..] == list[1..] + [e];
      WalkSnoc(f, Step(f, p, list[0]), list[1..], e);
    }
  }

  /** Walking `s` and then `t` is walking `s + t`. */
  lemma {:induction false} WalkConcat<T>(f: T -> bool, p: Position, s: seq<T>, t: seq<T>)
    ensures Walk(f, Walk(f, p, s), t) == Walk(f, p, s + t)
    decreases |s|
  {
    if s == [] {
      assert [] + t == t;
    } else {
      assert (s + t)[1..] == s[1..] + t;
      WalkConcat(f, Step(f, p, s[0]), s[1..], t);
    }
  }

  /** The walk never looks at the index. */
  lemma {:induction false} WalkIgnoresIndex<T>(f: T -> bool, p: Position, i: int, list: seq<T>)
    ensures Walk(f, p.(index := i), list) == Walk(f, p, list).(index := i)
    decreases |list|
  {
    if list != [] {
      WalkIgnoresIndex(f, Step(f, p, list[0]), i, list[1..]);
    }
  }

  /** With a newline predicate, `count` raises the line by the number of
      newlines consumed; the column grows by the number of elements when none
      is a newline, and otherwise counts the elements after the last one. */
  lemma {:induction false} WalkLines<T>(f: T -> bool, p: Position, list: seq<T>)
    ensures Walk(f, p, list).line == p.line + NewlinesIn(f, list)
    ensures (forall i :: 0 <= i < |list| ==> !f(list[i])) ==> Walk(f, p, list).column == p.column + |list|
    ensures forall i :: 0 <= i < |list| && f(list[i]) && (forall j :: i < j < |list| ==> !f(list[j])) ==>
              Walk(f, p, list).column == |list| - 1 - i
    decreases |list|
  {
    if list != [] {
      var s, e := list[..|list| - 1], list[|list| - 1];
      assert list == s + [e];
      WalkSnoc(f, p, s, e);
      WalkLines(f, p, s);
      forall i | 0 <= i < |list| && f(list[i]) && (forall j :: i < j < |list| ==> !f(list[j]))
        ensures Walk(f, p, list).column == |list| - 1 - i
      {
        if i < |list| - 1 {
          assert s[i] == list[i];
          assert forall j :: i < j < |s| ==> !f(s[j]) by {
            forall j | i < j < |s|
              ensures !f(s[j])
            {
              assert s[j] == list[j];
            }
          }
        }
      }
    }
  }

  /** Counting `s` and then `t` is counting `s + t`: the tracker's state
      after a list depends only on the list. */
  lemma CountConcat<T>(nl: Newline<T>, p: Position, s: seq<T>, t: seq<T>)
    ensures Count(nl, Count(nl, p, s), t) == Count(nl, p, s + t)
  {
    match nl
    case NoNewline =>
    case NewlineBy(f) =>
      var q := Position(p.index + |s|, p.line, p.column);
      var r := Walk(f, q, s);
      WalkIgnoresIndex(f, r, r.index + |t|, t);
      WalkIgnoresIndex(f, q, p.index + |s| + |t|, s);
      WalkConcat(f, Position(p.index + |s| + |t|, p.line, p.column), s, t);
  }

  /** Counting nothing moves nothing, once the column follows the tracker's
      own rule. */
  lemma CountEmpty<T>(nl: Newline<T>, p: Position)
    requires nl.NoNewline? ==> p.column == p.index
    ensures Count(nl, p, []) == p
  {
  }

  /** Without a newline predicate every position counted from the origin is
      on line 0 with the column equal to the index. */
  lemma CountFromOriginFlat<T>(list: seq<T>)
    ensures Count(NoNewline, Origin, list) == Position(|list|, 0, |list|)
  {
  }
}
