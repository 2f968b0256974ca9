/** The hierarchy check (`check_toc_hierarchy`): one error flag per ToC row,
    raised when the first row is above level 0 or when a later row
    is two or more levels deeper than the level it is compared with. */
module Hierarchy {
  import opened Cells

  /** The coerced level of every cell of the hierarchy column. */
  function Levels(column: seq<Cell>): (levels: seq<int>)
    ensures |levels| == |column|
    ensures forall k :: 0 <= k < |column| ==> levels[k] == Level(column[k])
  {
    seq(|column|, k requires 0 <= k < |column| => Level(column[k]))
  }

  /** Flags for the rows after the first, given the level the next row is
      compared with; every row then becomes the reference for its successor,
      so row `k` is flagged exactly when it is two or more levels deeper than
      `prev` (for `k == 0`) or than row `k - 1`. */
  function FlagsAfter(prev: int, rest: seq<int>): (flags: seq<bool>)
    ensures |flags| == |rest|
    ensures forall k :: 0 <= k < |rest| ==>
              flags[k] == (rest[k] - (if k == 0 then prev else rest[k - 1]) >= 2)
    decreases |rest|
  {
    if rest == [] then []
    else
      var tail := FlagsAfter(rest[0], rest[1..]);
      assert forall k :: 1 <= k < |rest| ==> rest[1..][k - 1] == rest[k];
      [rest[0] - prev >= 2] + tail
  }

  /** What the check computes from the coerced levels: the first row against
      0, and the rows after it with a running reference that starts at 0,
      since the first row's level is never stored as the reference. */
  function HierarchyFlags(levels: seq<int>): (flags: seq<bool>)
    requires |levels| > 0
    ensures |flags| == |levels|
  {
    [levels[0] > 0] + FlagsAfter(0, levels[1..])
  }

  /** The level row `i` is compared with: 0 for rows 0 and 1, the preceding
      row's level from row 2 on (`i == |levels|` gives the level the check
      holds once every row has been seen). */
  function Reference(levels: seq<int>, i: nat): int
    requires i <= |levels|
  {
    if i <= 1 then 0 else levels[i - 1]
  }

  /** Row-by-row statement of when a row is in error. */
  predicate Flagged(levels: seq<int>, i: nat)
    requires i < |levels|
  {
    if i == 0 then levels[0] > 0 else levels[i] - Reference(levels, i) >= 2
  }

  /** The recursive definition and the row-by-row one agree at every row. */
  lemma HierarchyFlagsAt(levels: seq<int>, i: nat)
    requires i < |levels|
    ensures HierarchyFlags(levels)[i] == Flagged(levels, i)
  {
    if i > 0 {
      assert levels[1..][i - 1] == levels[i];
    }
  }

  /** `check_toc_hierarchy`: walks the column once, appending one flag per
      cell and carrying the previous level in `prevLevel`. */
  method CheckTocHierarchy(column: seq<Cell>) returns (errors: seq<bool>)
    requires |column| > 0
    ensures errors == HierarchyFlags(Levels(column))
    ensures |errors| == |column|
    ensures forall i :: 0 <= i < |column| ==> errors[i] == Flagged(Levels(column), i)
  {
    ghost var levels := Levels(column);
    errors := [];
    var prevLevel := 0;
    var currentLevel := Level(column[0]);
    errors := errors + [currentLevel > 0];
    var i := 1;
    while i < |column|
      invariant 1 <= i <= |column|
      invariant |errors| == i
      invariant forall k :: 0 <= k < i ==> errors[k] == Flagged(levels, k)
      invariant prevLevel == Reference(levels, i)
    {
      currentLevel := Level(column[i]);
      errors := errors + [currentLevel - prevLevel >= 2];
      prevLevel := currentLevel;
      i := i + 1;
    }
    FlaggedRowsAreHierarchyFlags(levels, errors);
  }

  /** A flag list that agrees with the row-by-row rule at every row is the
      recursive definition. */
  lemma FlaggedRowsAreHierarchyFlags(levels: seq<int>, errors: seq<bool>)
    requires |levels| > 0 && |errors| == |levels|
    requires forall k :: 0 <= k < |levels| ==> errors[k] == Flagged(levels, k)
    ensures errors == HierarchyFlags(levels)
  {
    forall k | 0 <= k < |levels|
      ensures errors[k] == HierarchyFlags(levels)[k]
    {
      HierarchyFlagsAt(levels, k);
    }
  }

  /** The rules the check enforces: one flag per row; the first row is in
      error exactly when its level is above 0; row 1 exactly when its level
      is 2 or more; every later row exactly when it is two or more levels
      deeper than the row before it. */
  lemma HierarchyFlagsSpec(levels: seq<int>)
    requires |levels| > 0
    ensures |HierarchyFlags(levels)| == |levels|
    ensures HierarchyFlags(levels)[0] <==> levels[0] > 0
    ensures |levels| > 1 ==> (HierarchyFlags(levels)[1] <==> levels[1] >= 2)
    ensures forall i :: 2 <= i < |levels| ==>
              (HierarchyFlags(levels)[i] <==> levels[i] - levels[i - 1] >= 2)
  {
    forall i | 0 <= i < |levels| ensures HierarchyFlags(levels)[i] == Flagged(levels, i) {
      HierarchyFlagsAt(levels, i);
    }
  }

  /** After the first row, becoming shallower by any number of levels,
      staying at the same depth or going one level deeper is never an error. */
  lemma SmallStepsAreNeverFlagged(levels: seq<int>, i: nat)
    requires 1 <= i < |levels|
    requires levels[i] <= Reference(levels, i) + 1
    ensures !HierarchyFlags(levels)[i]
  {
    HierarchyFlagsAt(levels, i);
  }

  /** When the first row is at level 0, every later row is compared with the
      row right before it, as the name `prev_level` suggests for all rows. */
  lemma RootedStartComparesWithPredecessor(levels: seq<int>)
    requires |levels| > 0 && levels[0] == 0
    ensures !HierarchyFlags(levels)[0]
    ensures forall i :: 1 <= i < |levels| ==>
              (HierarchyFlags(levels)[i] <==> levels[i] - levels[i - 1] >= 2)
  {
    HierarchyFlagsSpec(levels);
  }

  /** A well-nested table of contents (starting at level 0 and never going
      more than one level deeper at a time) produces no error at all. */
  predicate WellNested(levels: seq<int>) {
    |levels| > 0 && levels[0] == 0 &&
    forall i :: 1 <= i < |levels| ==> levels[i] <= levels[i - 1] + 1
  }

  lemma WellNestedHasNoErrors(levels: seq<int>)
    requires WellNested(levels)
    ensures forall i :: 0 <= i < |levels| ==> !HierarchyFlags(levels)[i]
  {
    RootedStartComparesWithPredecessor(levels);
    forall i | 1 <= i < |levels| ensures !HierarchyFlags(levels)[i] {
      assert levels[i] <= levels[i - 1] + 1;
    }
  }

  /** The first row's level is not the reference for row 1: after a first
      row at level 1, a second row at level 2 is still flagged, and after a
      first row at level -1, a second row at level 1 is not. */
  lemma FirstRowIsNotTheReference()
    ensures HierarchyFlags([1, 2]) == [true, true]
    ensures HierarchyFlags([-1, 1]) == [false, false]
  {
  }

  /** Small worked cases: `[0,1,2]`, `[0,2]`, `[0,1,0,1]`, `[0,"bad",1]` and
      `[None]`; a cell that `int()` rejects counts as level 0. */
  lemma HierarchyExamples()
    ensures HierarchyFlags(Levels([Int(0), Int(1), Int(2)])) == [false, false, false]
    ensures HierarchyFlags(Levels([Int(0), Int(2)])) == [false, true]
    ensures HierarchyFlags(Levels([Int(0), Int(1), Int(0), Int(1)])) == [false, false, false, false]
    ensures HierarchyFlags(Levels([Int(0), Text("bad"), Int(1)])) == [false, false, false]
    ensures HierarchyFlags(Levels([Empty])) == [false]
  {
  }
}
