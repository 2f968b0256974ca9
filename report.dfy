/** The pure part of the ToC-check button handler (`on_toc_check_button_click`):
    reading the two columns from the worksheet, running both checks, deciding
    whether anything is wrong, choosing the cells to highlight and the error
    categories to report. Loading, styling and saving the workbook, the status
    bar and opening the saved file are not part of this model. */
module Report {
  import opened Cells
  import opened Hierarchy
  import opened Normalizer
  import opened Matcher

  /** 0-based positions of the two columns within a row tuple. */
  const CHAPTER_COLUMN: nat := 2
  const HIERARCHY_COLUMN: nat := 3

  const HIERARCHY_LABEL: string := "hierarchy番号"
  const CHAPTER_LABEL: string := "チャプター名"

  /** A worksheet cell address, 1-based as the workbook numbers them. */
  datatype CellRef = CellRef(row: int, column: int)

  /** Row `r` of the sheet (1-based) is `rows[r - 1]`; row 1 is the header. */
  function CellAt(rows: seq<seq<Cell>>, row: int, column: int): Cell
    requires 1 <= row <= |rows| && 1 <= column <= |rows[row - 1]|
  {
    rows[row - 1][column - 1]
  }

  /** Every data row (from row 2 on) is wide enough to hold both columns. */
  predicate WideEnough(rows: seq<seq<Cell>>) {
    forall r :: 1 <= r < |rows| ==> |rows[r]| > HIERARCHY_COLUMN
  }

  /** Number of data rows below the header. */
  function DataRows(rows: seq<seq<Cell>>): nat {
    if |rows| <= 1 then 0 else |rows| - 1
  }

  /** Lines 46-50: collect the hierarchy and chapter cells of every row from
      row 2 on. The i-th collected value is the cell at 1-based row `i + 2`
      and 1-based column `COLUMN + 1`, the address later highlighted. */
  method ReadColumns(rows: seq<seq<Cell>>) returns (hierarchyLevels: seq<Cell>, chapterNames: seq<Cell>)
    requires WideEnough(rows)
    ensures |hierarchyLevels| == |chapterNames| == DataRows(rows)
    ensures forall i :: 0 <= i < DataRows(rows) ==>
              hierarchyLevels[i] == CellAt(rows, i + 2, HIERARCHY_COLUMN + 1) &&
              chapterNames[i] == CellAt(rows, i + 2, CHAPTER_COLUMN + 1)
  {
    hierarchyLevels, chapterNames := [], [];
    var r := 1;
    while r < |rows|
      invariant 1 <= r <= if |rows| == 0 then 1 else |rows|
      invariant |hierarchyLevels| == |chapterNames| == r - 1
      invariant forall i :: 0 <= i < r - 1 ==>
                  hierarchyLevels[i] == rows[i + 1][HIERARCHY_COLUMN] &&
                  chapterNames[i] == rows[i + 1][CHAPTER_COLUMN]
    {
      hierarchyLevels := hierarchyLevels + [rows[r][HIERARCHY_COLUMN]];
      chapterNames := chapterNames + [rows[r][CHAPTER_COLUMN]];
      r := r + 1;
    }
  }

  /** Line 54: the chapter flag of every title against the normalized text. */
  function ChapterFlags(table: Table, names: seq<Cell>, corpus: string): (flags: seq<bool>)
    ensures |flags| == |names|
  {
    seq(|names|, i requires 0 <= i < |names| => InEpub(table, names[i], corpus))
  }

  /** Line 56: `any(hierarchy_errors) or any(chapter_errors)`. */
  predicate HasErrors(hierarchyErrors: seq<bool>, chapterErrors: seq<bool>)
    ensures HasErrors(hierarchyErrors, chapterErrors) <==>
              (exists i :: 0 <= i < |hierarchyErrors| && hierarchyErrors[i]) ||
              (exists i :: 0 <= i < |chapterErrors| && chapterErrors[i])
  {
    true in hierarchyErrors || true in chapterErrors
  }

  /** Whether `cell` is a cell that must be marked: the row of an error among
      the first `n`, in the column of that kind of error. */
  predicate MarksError(hierarchyErrors: seq<bool>, chapterErrors: seq<bool>, n: nat, cell: CellRef)
    requires n <= |hierarchyErrors| && n <= |chapterErrors|
  {
    2 <= cell.row < n + 2 &&
    ((cell.column == HIERARCHY_COLUMN + 1 && hierarchyErrors[cell.row - 2]) ||
     (cell.column == CHAPTER_COLUMN + 1 && chapterErrors[cell.row - 2]))
  }

  /** The cells the highlighting loop marks for the first `n` zipped rows:
      exactly the cells of flagged rows, each in the column of its error, at
      row `index + 2`. */
  function ErrorCells(hierarchyErrors: seq<bool>, chapterErrors: seq<bool>, n: nat): (cells: set<CellRef>)
    requires n <= |hierarchyErrors| && n <= |chapterErrors|
    ensures forall cell :: cell in cells <==> MarksError(hierarchyErrors, chapterErrors, n, cell)
    decreases n
  {
    if n == 0 then {}
    else
      ErrorCells(hierarchyErrors, chapterErrors, n - 1)
      + (if hierarchyErrors[n - 1] then {CellRef(n + 1, HIERARCHY_COLUMN + 1)} else {})
      + (if chapterErrors[n - 1] then {CellRef(n + 1, CHAPTER_COLUMN + 1)} else {})
  }

  /** With as many flags of each kind as rows, no cell is marked exactly when
      nothing is in error. */
  lemma NothingMarkedIffNoErrors(hierarchyErrors: seq<bool>, chapterErrors: seq<bool>)
    requires |hierarchyErrors| == |chapterErrors|
    ensures ErrorCells(hierarchyErrors, chapterErrors, |hierarchyErrors|) == {}
            <==> !HasErrors(hierarchyErrors, chapterErrors)
  {
    var n := |hierarchyErrors|;
    if true in hierarchyErrors {
      var i :| 0 <= i < n && hierarchyErrors[i];
      assert MarksError(hierarchyErrors, chapterErrors, n, CellRef(i + 2, HIERARCHY_COLUMN + 1));
    } else if true in chapterErrors {
      var i :| 0 <= i < n && chapterErrors[i];
      assert MarksError(hierarchyErrors, chapterErrors, n, CellRef(i + 2, CHAPTER_COLUMN + 1));
    } else {
      forall cell ensures cell !in ErrorCells(hierarchyErrors, chapterErrors, n) {
        if 2 <= cell.row < n + 2 {
          assert !hierarchyErrors[cell.row - 2] && !chapterErrors[cell.row - 2];
        }
      }
    }
  }

  /** The error categories reported, in order (lines 68-72). */
  function ErrorLabels(hierarchyErrors: seq<bool>, chapterErrors: seq<bool>): (labels: seq<string>)
    ensures (HIERARCHY_LABEL in labels) <==> true in hierarchyErrors
    ensures (CHAPTER_LABEL in labels) <==> true in chapterErrors
    ensures labels == [] <==> !HasErrors(hierarchyErrors, chapterErrors)
    ensures |labels| <= 2 && forall k :: 0 <= k < |labels| ==> labels[k] in {HIERARCHY_LABEL, CHAPTER_LABEL}
    ensures |labels| == 2 ==> labels[0] == HIERARCHY_LABEL && labels[1] == CHAPTER_LABEL
  {
    assert HIERARCHY_LABEL[0] != CHAPTER_LABEL[0];
    (if true in hierarchyErrors then [HIERARCHY_LABEL] else [])
    + (if true in chapterErrors then [CHAPTER_LABEL] else [])
  }

  /** Lines 68-72: the list of error categories, built by appending. */
  method ErrorMessage(hierarchyErrors: seq<bool>, chapterErrors: seq<bool>) returns (labels: seq<string>)
    ensures labels == ErrorLabels(hierarchyErrors, chapterErrors)
    ensures (HIERARCHY_LABEL in labels) <==> true in hierarchyErrors
    ensures (CHAPTER_LABEL in labels) <==> true in chapterErrors
    ensures labels == [] <==> !HasErrors(hierarchyErrors, chapterErrors)
    ensures |labels| <= 2 && forall k :: 0 <= k < |labels| ==> labels[k] in {HIERARCHY_LABEL, CHAPTER_LABEL}
    ensures |labels| == 2 ==> labels[0] == HIERARCHY_LABEL && labels[1] == CHAPTER_LABEL
  {
    labels := [];
    if true in hierarchyErrors {
      labels := labels + [HIERARCHY_LABEL];
    }
    if true in chapterErrors {
      labels := labels + [CHAPTER_LABEL];
    }
    assert HIERARCHY_LABEL[0] != CHAPTER_LABEL[0];
  }

  /** The loaded worksheet: its cell values, and the set of cells whose fill
      has been set to yellow. */
  class Worksheet {
    const rows: seq<seq<Cell>>
    var highlighted: set<CellRef>

    constructor (rows: seq<seq<Cell>>)
      ensures this.rows == rows && highlighted == {}
    {
      this.rows := rows;
      highlighted := {};
    }

    /** Lines 60-64: walk the zipped flags with row numbers from 2 and fill
        the hierarchy and chapter cells of each flagged row. */
    method HighlightErrors(hierarchyErrors: seq<bool>, chapterErrors: seq<bool>)
      modifies this
      ensures var n := if |hierarchyErrors| < |chapterErrors| then |hierarchyErrors| else |chapterErrors|;
              highlighted == old(highlighted) + ErrorCells(hierarchyErrors, chapterErrors, n)
    {
      var n := if |hierarchyErrors| < |chapterErrors| then |hierarchyErrors| else |chapterErrors|;
      var i := 0;
      while i < n
        invariant 0 <= i <= n
        invariant highlighted == old(highlighted) + ErrorCells(hierarchyErrors, chapterErrors, i)
      {
        var rowIdx := i + 2;
        if hierarchyErrors[i] {
          highlighted := highlighted + {CellRef(rowIdx, HIERARCHY_COLUMN + 1)};
        }
        if chapterErrors[i] {
          highlighted := highlighted + {CellRef(rowIdx, CHAPTER_COLUMN + 1)};
        }
        i := i + 1;
      }
    }
  }

  /** Lines 56-72: only when some flag is set are the flagged cells
      highlighted and the error categories listed; otherwise the sheet is
      left alone and no category is reported. */
  method ReportErrors(ws: Worksheet, hierarchyErrors: seq<bool>, chapterErrors: seq<bool>)
      returns (hasErrors: bool, labels: seq<string>)
    requires |hierarchyErrors| == |chapterErrors|
    modifies ws
    ensures hasErrors <==> HasErrors(hierarchyErrors, chapterErrors)
    ensures labels == ErrorLabels(hierarchyErrors, chapterErrors)
    ensures ws.highlighted == old(ws.highlighted) + ErrorCells(hierarchyErrors, chapterErrors, |hierarchyErrors|)
  {
    hasErrors := true in hierarchyErrors || true in chapterErrors;
    labels := [];
    if hasErrors {
      ws.HighlightErrors(hierarchyErrors, chapterErrors);
      labels := ErrorMessage(hierarchyErrors, chapterErrors);
    } else {
      NothingMarkedIffNoErrors(hierarchyErrors, chapterErrors);
    }
  }

  /** What one press of the check button decides. */
  datatype Outcome = Outcome(hierarchyErrors: seq<bool>, chapterErrors: seq<bool>, hasErrors: bool, labels: seq<string>)

  /** The hierarchy column of the data rows, as `ReadColumns` collects it. */
  function HierarchyColumn(rows: seq<seq<Cell>>): (column: seq<Cell>)
    requires WideEnough(rows)
    ensures |column| == DataRows(rows)
  {
    seq(DataRows(rows), i requires 0 <= i < DataRows(rows) => CellAt(rows, i + 2, HIERARCHY_COLUMN + 1))
  }

  /** Lines 41-72 without the I/O: the e-book text is normalized once, both
      checks run over the collected columns, and only when something is wrong
      are cells highlighted and categories listed. A sheet with no data row
      makes the hierarchy check index an empty list, so at least one data row
      is required. */
  method OnTocCheck(ws: Worksheet, table: Table, rawEpubText: string) returns (outcome: Outcome)
    requires |ws.rows| >= 2 && WideEnough(ws.rows)
    modifies ws
    ensures |outcome.hierarchyErrors| == |outcome.chapterErrors| == |ws.rows| - 1
    ensures outcome.hierarchyErrors == HierarchyFlags(Levels(HierarchyColumn(ws.rows)))
    ensures forall i :: 0 <= i < |ws.rows| - 1 ==>
              outcome.chapterErrors[i] ==
              InEpub(table, CellAt(ws.rows, i + 2, CHAPTER_COLUMN + 1), MakeComparable(table, Text(rawEpubText)))
    ensures outcome.hasErrors <==> HasErrors(outcome.hierarchyErrors, outcome.chapterErrors)
    ensures outcome.labels == ErrorLabels(outcome.hierarchyErrors, outcome.chapterErrors)
    ensures ws.highlighted == old(ws.highlighted) +
              ErrorCells(outcome.hierarchyErrors, outcome.chapterErrors, |ws.rows| - 1)
  {
    var epubText := MakeComparable(table, Text(rawEpubText));
    var hierarchyLevels, chapterNames := ReadColumns(ws.rows);
    assert hierarchyLevels == HierarchyColumn(ws.rows);
    var hierarchyErrors := CheckTocHierarchy(hierarchyLevels);
    var chapterErrors := ChapterFlags(table, chapterNames, epubText);
    var hasErrors, labels := ReportErrors(ws, hierarchyErrors, chapterErrors);
    outcome := Outcome(hierarchyErrors, chapterErrors, hasErrors, labels);
  }
}
