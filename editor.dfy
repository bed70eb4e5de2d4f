/** The viewport of the editor (src/editor.rs): the focus cell, the scroll
    offset, focus movement, scrolling, ray selection, the normalisation that
    follows every key press, and the column-letter function. */
module Editors {
  import opened Cells
  import opened Tables
  import opened Edits
  import opened Clipboard
  import opened Documents

  /** 2^64: the focus, the offset and the extents are `usize` values. */
  const WORD: int := 0x1_0000_0000_0000_0000

  /** `usize::saturating_add`. */
  function SatAdd(a: nat, b: nat): (r: nat)
    ensures a + b < WORD ==> r == a + b
    ensures a + b >= WORD ==> r == WORD - 1
  {
    if a + b < WORD then a + b else WORD - 1
  }

  /** `usize::saturating_sub`. */
  function SatSub(a: nat, b: nat): (r: nat)
    ensures a >= b ==> r == a - b
    ensures a < b ==> r == 0
  {
    if a >= b then a - b else 0
  }

  /** `usize` subtraction as a release build computes it: modulo 2^64. */
  function WrappingSub(a: nat, b: nat): (r: nat)
    ensures r < WORD
    ensures b <= a < WORD ==> r == a - b
    ensures a < b <= WORD ==> r == WORD + a - b
  {
    (a - b) % WORD
  }

  // ----- move_position -----

  /** The focus after `move_position(key)` on a table with `rows` rows and
      `cols` columns and a terminal `termHeight` lines high. */
  function Moved(key: Key, at: Position, rows: nat, cols: nat, termHeight: nat): Position
  {
    match key
    case Up => if at.y > 0 then at.(y := SatSub(at.y, 1)) else at
    case Down => if at.y <= rows then at.(y := SatAdd(at.y, 1)) else at
    case Left => if at.x > 0 then at.(x := at.x - 1) else at
    case Right => if at.x <= cols then at.(x := at.x + 1) else at
    case PageUp => at.(y := if at.y > termHeight + 1 then SatSub(at.y, termHeight) else 1)
    case PageDown =>
      at.(y := if SatAdd(at.y, termHeight) < rows then SatAdd(at.y, termHeight) else WrappingSub(rows, 2))
    case Home => at.(x := 1)
    case End => at.(x := cols)
    case _ => at
  }

  /** The arrow keys, Home and End keep the focus inside the table or on the
      row or column just past it (where the next key press grows the table):
      Down and Right stop one past the last row or column, Up and Left stop
      at 0. */
  lemma MovedStaysNear(key: Key, at: Position, rows: nat, cols: nat, termHeight: nat)
    requires at.x <= cols + 1 && at.y <= rows + 1
    requires key.Up? || key.Down? || key.Left? || key.Right? || key.Home? || key.End? || key.PageUp?
    ensures Moved(key, at, rows, cols, termHeight).x <= cols + 1
    ensures Moved(key, at, rows, cols, termHeight).y <= rows + 1
    ensures key.Up? || key.Down? || key.PageUp? ==> Moved(key, at, rows, cols, termHeight).x == at.x
    ensures key.Left? || key.Right? || key.Home? || key.End? ==> Moved(key, at, rows, cols, termHeight).y == at.y
  {
  }

  /** Up undoes Down and Left undoes Right wherever Down or Right moves the
      focus; Down undoes Up and Right undoes Left on a focus above 0. */
  lemma MovedArrowsInverse(at: Position, rows: nat, cols: nat, h: nat)
    requires at.y + 1 < WORD
    ensures at.y <= rows ==> Moved(Up, Moved(Down, at, rows, cols, h), rows, cols, h) == at
    ensures at.x <= cols ==> Moved(Left, Moved(Right, at, rows, cols, h), rows, cols, h) == at
    ensures 0 < at.y <= rows + 1 ==> Moved(Down, Moved(Up, at, rows, cols, h), rows, cols, h) == at
    ensures 0 < at.x <= cols + 1 ==> Moved(Right, Moved(Left, at, rows, cols, h), rows, cols, h) == at
  {
  }

  /** PageUp never leaves the first row behind: it lands on row 1 or later,
      and never below where it started. */
  lemma PageUpBounds(at: Position, rows: nat, cols: nat, h: nat)
    ensures Moved(PageUp, at, rows, cols, h).y >= 1
    ensures at.y >= 1 ==> Moved(PageUp, at, rows, cols, h).y <= at.y
    ensures at.y > h + 1 ==> Moved(PageUp, at, rows, cols, h).y == at.y - h
  {
  }

  /** PageDown on a table of at least two rows lands inside the table; on a
      table of fewer than two rows whose last row is within a page, the
      subtraction `num_rows - 2` wraps around to a row near 2^64. */
  lemma PageDownBounds(at: Position, rows: nat, cols: nat, h: nat)
    requires rows < WORD && at.y < WORD && h < WORD
    ensures rows >= 2 ==> Moved(PageDown, at, rows, cols, h).y < rows
    ensures rows < 2 && at.y + h >= rows ==> Moved(PageDown, at, rows, cols, h).y == WORD - 2 + rows
  {
  }

  // ----- scroll -----

  /** The vertical offset after `scroll`, for a window of `height` lines. */
  function ScrolledY(y: nat, oy: nat, height: nat): nat
  {
    if y < oy then y
    else if y >= SatAdd(oy, height) then SatAdd(SatSub(y, height), 1)
    else oy
  }

  /** The text width of columns `from` up to `to - 1`, with four characters of
      separator per column: the `strlen` of `scroll`. */
  function Span(cells: seq<Cell>, from: nat, to: nat): nat
    decreases to
  {
    if to <= from then 0 else Span(cells, from, to - 1) + ColumnWidthOf(cells, to - 1) + 4
  }

  /** The horizontal offset after `scroll` with the focus in column `x` and a
      terminal `width` columns wide: one column back when the focus column
      span fits within the first visible column, one column on when it
      reaches past the window, else unchanged. */
  function ScrolledX(cells: seq<Cell>, x: nat, ox: nat, width: nat): (r: nat)
    ensures r == ox || (ox >= 1 && r == ox - 1) || r == SatAdd(ox, 1)
  {
    var strlen := Span(cells, ox, x + 1);
    if SatSub(strlen, 4) <= ColumnWidthOf(cells, ox) && ox >= 1 then ox - 1
    else if strlen >= SatAdd(ox, width) then SatAdd(ox, 1)
    else ox
  }

  /** After `scroll` the focus row is on screen: the window of `height`
      lines from the new offset contains it, and an offset that already
      showed it is kept. */
  lemma ScrollShowsFocus(y: nat, oy: nat, height: nat)
    requires 1 <= height < WORD && y < WORD && oy < WORD
    ensures ScrolledY(y, oy, height) <= y < ScrolledY(y, oy, height) + height
    ensures oy <= y < SatAdd(oy, height) ==> ScrolledY(y, oy, height) == oy
  {
  }

  /** Scrolling again without moving changes nothing vertically. */
  lemma ScrollYIdempotent(y: nat, oy: nat, height: nat)
    requires 1 <= height < WORD && y < WORD && oy < WORD
    ensures ScrolledY(y, ScrolledY(y, oy, height), height) == ScrolledY(y, oy, height)
  {
    ScrollShowsFocus(y, oy, height);
    ScrollShowsFocus(y, ScrolledY(y, oy, height), height);
  }

  // ----- highlight_row / highlight_col -----

  /** The selection `highlight_row(s, e)` makes: every cell of column `x`
      on rows `s` to `e - 1` becomes selected, and nothing else changes. */
  function RowHighlighted(cells: seq<Cell>, x: nat, s: nat, e: nat): (r: seq<Cell>)
    ensures |r| == |cells|
    ensures e <= s ==> r == cells
  {
    seq(|cells|, i requires 0 <= i < |cells| =>
      if cells[i].xLoc == x && s <= cells[i].yLoc < e then Highlight(cells[i]) else cells[i])
  }

  /** The selection `highlight_col(s, e)` makes: every cell of row `y` on
      columns `s` to `e - 1` becomes selected, and nothing else changes. */
  function ColHighlighted(cells: seq<Cell>, y: nat, s: nat, e: nat): (r: seq<Cell>)
    ensures |r| == |cells|
    ensures e <= s ==> r == cells
  {
    seq(|cells|, i requires 0 <= i < |cells| =>
      if cells[i].yLoc == y && s <= cells[i].xLoc < e then Highlight(cells[i]) else cells[i])
  }

  /** One turn of the loop of `highlight_row`: `multi_highlight` at (x, y)
      extends the selected stretch of column `x` by row `y`. */
  lemma RowStep(cells: seq<Cell>, x: nat, s: nat, y: nat)
    requires s <= y
    ensures MultiHighlighted(RowHighlighted(cells, x, s, y), Position(x, y)) == RowHighlighted(cells, x, s, y + 1)
  {
    var prev := RowHighlighted(cells, x, s, y);
    var next := MultiHighlighted(prev, Position(x, y));
    MultiHighlightedCells(prev, Position(x, y));
    assert forall i :: 0 <= i < |cells| ==> next[i] == RowHighlighted(cells, x, s, y + 1)[i];
  }

  /** One turn of the loop of `highlight_col`: `multi_highlight` at (x, y)
      extends the selected stretch of row `y` by column `x`. */
  lemma ColStep(cells: seq<Cell>, y: nat, s: nat, x: nat)
    requires s <= x
    ensures MultiHighlighted(ColHighlighted(cells, y, s, x), Position(x, y)) == ColHighlighted(cells, y, s, x + 1)
  {
    var prev := ColHighlighted(cells, y, s, x);
    var next := MultiHighlighted(prev, Position(x, y));
    MultiHighlightedCells(prev, Position(x, y));
    assert forall i :: 0 <= i < |cells| ==> next[i] == ColHighlighted(cells, y, s, x + 1)[i];
  }

  // ----- after a key -----

  /** The growth the post-key block applies: a row, then a column, each only
      when the focus is just past the table. */
  function Grown(cells: seq<Cell>, at: Position, measure: Measure): seq<Cell>
  {
    GrownCol(GrownRow(cells, at, measure), at, measure)
  }

  /** Where the post-key block leaves the focus: row 0 moves to row 1,
      otherwise column 0 moves to column 1. */
  function FocusOf(at: Position): Position
  {
    if at.y == 0 then Position(at.x, 1) else if at.x == 0 then Position(1, at.y) else at
  }

  /** The cells after the selection step of the post-key block on `cells`
      with the focus at `at` before it moved: the moved focus cell and its
      whole column (row 0) or row (column 0) selected, or only the focus
      cell. */
  function FocusedCells(cells: seq<Cell>, at: Position): seq<Cell>
  {
    var f := FocusOf(at);
    if at.y == 0 then RowHighlighted(Highlighted(cells, f), f.x, 1, NumRowsOf(cells) + 1)
    else if at.x == 0 then ColHighlighted(Highlighted(cells, f), f.y, 1, NumColsOf(cells) + 1)
    else Highlighted(cells, at)
  }

  /** The selection step moves no cell and keeps every text; afterwards a
      focus on row 0 has selected exactly the placed cells of its column, a
      focus on column 0 exactly the placed cells of its row, and any other
      focus exactly the cells at it. */
  lemma FocusedSelection(cells: seq<Cell>, at: Position)
    ensures SamePlaces(cells, FocusedCells(cells, at))
    ensures forall i :: 0 <= i < |cells| ==> FocusedCells(cells, at)[i].contents == cells[i].contents
    ensures forall i :: 0 <= i < |cells| ==>
      (FocusedCells(cells, at)[i].highlighted <==>
        if at.y == 0 then cells[i].xLoc == at.x && cells[i].yLoc >= 1
        else if at.x == 0 then cells[i].yLoc == at.y && cells[i].xLoc >= 1
        else At(cells[i], at))
  {
    var f := FocusOf(at);
    var h := Highlighted(cells, f);
    var r := FocusedCells(cells, at);
    HighlightedCells(cells, f);
    NumRowsOfBounds(cells);
    NumColsOfBounds(cells);
    forall i | 0 <= i < |cells|
      ensures Place(r[i]) == Place(cells[i]) && r[i].contents == cells[i].contents
      ensures r[i].highlighted <==>
        if at.y == 0 then cells[i].xLoc == at.x && cells[i].yLoc >= 1
        else if at.x == 0 then cells[i].yLoc == at.y && cells[i].xLoc >= 1
        else At(cells[i], at)
    {
      assert Place(h[i]) == Place(cells[i]);
    }
  }

  /** On a non-empty dense grid, a focus inside the table or on the row or
      column just past it always has a cell once the table has grown, and
      the grown grid stays dense and well placed. */
  lemma GrownCoversFocus(cells: seq<Cell>, at: Position, measure: Measure)
    requires Dense(cells) && WellPlaced(cells) && cells != []
    requires 1 <= at.x <= NumColsOf(cells) + 1 && 1 <= at.y <= NumRowsOf(cells) + 1
    ensures HasCell(Grown(cells, at, measure), at)
    ensures Dense(Grown(cells, at, measure)) && WellPlaced(Grown(cells, at, measure))
  {
    var g1 := GrownRow(cells, at, measure);
    var c := cells[0];
    assert c.xLoc >= 1 && c.yLoc >= 1;
    assert NumColsOf(cells) >= 1 && NumRowsOf(cells) >= 1;
    GrownRowExtent(cells, at, measure);
    GrownRowKeepsDense(cells, at, measure);
    GrownRowKeepsPlaces(cells, at, measure);
    GrownColExtent(g1, at, measure);
    GrownColKeepsDense(g1, at, measure);
    GrownColKeepsPlaces(g1, at, measure);
    assert HasCell(g1, at) || at.x == NumColsOf(g1) + 1 by {
      if at.y == NumRowsOf(cells) + 1 && at.x <= NumColsOf(cells) {
        GrownRowContent(cells, at, measure, at.x);
      }
    }
    if HasCell(g1, at) {
      if at.x == NumColsOf(g1) + 1 {
        HasCellConcat(g1, NewCol(at.x, NumRowsOf(g1), measure), at);
      }
    } else {
      GrownColContent(g1, at, measure, at.y);
    }
  }

  /** After the normal branch of the post-key block on a well-placed grid,
      the selection is exactly the focus cell, when there is one. */
  lemma SelectionAfterKey(cells: seq<Cell>, at: Position, measure: Measure)
    requires WellPlaced(cells)
    ensures WellPlaced(Grown(cells, at, measure))
    ensures
      var g := Grown(cells, at, measure);
      Selected(Highlighted(g, at)) == if HasCell(g, at) then [Highlight(g[FirstAt(g, at)])] else []
  {
    GrownRowKeepsPlaces(cells, at, measure);
    GrownColKeepsPlaces(GrownRow(cells, at, measure), at, measure);
    SelectedAfterHighlight(Grown(cells, at, measure), at);
  }

  /** `insert_newrow` then `insert_newcol`, each keeping the cells it finds
      and counting what it adds, together make `Grown` and count all of it. */
  lemma GrowComposes(cells0: seq<Cell>, cells1: seq<Cell>, cells: seq<Cell>, at: Position, measure: Measure,
    saved0: bool, saved1: bool, saved: bool, count0: nat, sum0: nat, widest0: nat,
    count1: nat, sum1: nat, widest1: nat, count: nat, sum: nat, widest: nat)
    requires cells1 == GrownRow(cells0, at, measure) && cells == GrownCol(cells1, at, measure)
    requires saved1 == (saved0 && at.y != NumRowsOf(cells0) + 1) && saved == (saved1 && at.x != NumColsOf(cells1) + 1)
    requires |cells0| <= |cells1| && cells1[..|cells0|] == cells0
    requires |cells1| <= |cells| && cells[..|cells1|] == cells1
    requires CountersAfter(cells1[|cells0|..], count0, sum0, widest0, count1, sum1, widest1)
    requires CountersAfter(cells[|cells1|..], count1, sum1, widest1, count, sum, widest)
    ensures cells == Grown(cells0, at, measure)
    ensures saved == (saved0 && at.y != NumRowsOf(cells0) + 1 && at.x != NumColsOf(cells0) + 1)
    ensures |cells0| <= |cells|
    ensures CountersAfter(cells[|cells0|..], count0, sum0, widest0, count, sum, widest)
  {
    GrownRowExtent(cells0, at, measure);
    CountersThrough(cells0, cells1, cells, count0, sum0, widest0, count1, sum1, widest1, count, sum, widest);
  }

  /** The editor's view state over one document. */
  class Editor {
    const document: Document
    var cellIndex: Position
    var offset: Position

    /** The focus and offset `Editor::default` starts from. */
    constructor(document: Document)
      ensures this.document == document
      ensures cellIndex == Position(1, 2) && offset == Position(0, 1)
    {
      this.document := document;
      cellIndex := Position(1, 2);
      offset := Position(0, 1);
    }

    /** `move_position`: the focus after one movement key. */
    method MovePosition(key: Key, termHeight: nat)
      modifies this`cellIndex
      ensures cellIndex == Moved(key, old(cellIndex), NumRowsOf(document.table.cells),
        NumColsOf(document.table.cells), termHeight)
    {
      var height := document.table.NumRows();
      var width := document.table.NumCols();
      var x, y := cellIndex.x, cellIndex.y;
      match key {
        case Up =>
          if y > 0 {
            y := SatSub(y, 1);
          }
        case Down =>
          if y <= height {
            y := SatAdd(y, 1);
          }
        case Left =>
          if x > 0 {
            x := x - 1;
          }
        case Right =>
          if x <= width {
            x := x + 1;
          }
        case PageUp =>
          y := if y > termHeight + 1 then SatSub(y, termHeight) else 1;
        case PageDown =>
          y := if SatAdd(y, termHeight) < height then SatAdd(y, termHeight) else WrappingSub(height, 2);
        case Home =>
          x := 1;
        case End =>
          x := width;
        case _ =>
      }
      cellIndex := Position(x, y);
    }

    /** `scroll`: bring the focus row into the window of `termHeight - 1`
        lines, then move the horizontal offset by at most one column. */
    method Scroll(termWidth: nat, termHeight: nat)
      requires termHeight >= 1
      modifies this`offset
      ensures offset.y == ScrolledY(cellIndex.y, old(offset.y), termHeight - 1)
      ensures offset.x == ScrolledX(document.table.cells, cellIndex.x, old(offset.x), termWidth)
    {
      var x, y := cellIndex.x, cellIndex.y;
      var width := termWidth;
      var height := termHeight - 1;
      var ox, oy := offset.x, offset.y;
      if y < oy {
        oy := y;
      } else if y >= SatAdd(oy, height) {
        oy := SatAdd(SatSub(y, height), 1);
      }
      var strlen := SpanWidth(ox, x + 1);
      var first := document.table.ColumnWidth(ox);
      ghost var cells := document.table.cells;
      assert strlen == Span(cells, ox, x + 1) && first == ColumnWidthOf(cells, ox);
      if SatSub(strlen, 4) <= first && ox >= 1 {
        ox := SatSub(ox, 1);
      } else if strlen >= SatAdd(ox, width) {
        ox := SatAdd(ox, 1);
      }
      offset := Position(ox, oy);
    }

    /** The loop of `scroll` that measures columns `from` up to `to - 1`. */
    method SpanWidth(from: nat, to: nat) returns (strlen: nat)
      ensures strlen == Span(document.table.cells, from, to)
      ensures to <= from ==> strlen == 0
    {
      strlen := 0;
      var i := from;
      while i < to
        invariant from <= i && (i <= to || i == from)
        invariant strlen == Span(document.table.cells, from, i)
        decreases (to as int) - i
      {
        var w := document.table.ColumnWidth(i);
        strlen := strlen + w;
        strlen := strlen + 4;
        i := i + 1;
      }
    }

    /** `highlight_row(s, e)`: unless `s < 1` and `e` is past the last row,
        `multi_highlight` the focus column on rows `s` to `e - 1`. */
    method HighlightRow(s: nat, e: nat)
      modifies document.table`cells
      ensures s < 1 && e > NumRowsOf(old(document.table.cells)) ==> document.table.cells == old(document.table.cells)
      ensures !(s < 1 && e > NumRowsOf(old(document.table.cells))) ==>
        document.table.cells == RowHighlighted(old(document.table.cells), cellIndex.x, s, e)
    {
      var rows := document.table.NumRows();
      if s < 1 && e > rows {
        return;
      }
      ghost var cells0 := document.table.cells;
      var y := s;
      while y < e
        invariant s <= y && (y <= e || y == s)
        invariant document.table.cells == RowHighlighted(cells0, cellIndex.x, s, y)
        decreases (e as int) - y
      {
        var x := cellIndex.x;
        RowStep(cells0, x, s, y);
        document.MultiHighlight(Position(x, y));
        y := y + 1;
      }
    }

    /** `highlight_col(s, e)`: unless `s < 1` or `e` is more than one past the
        last column, `multi_highlight` the focus row on columns `s` to `e - 1`. */
    method HighlightCol(s: nat, e: nat)
      modifies document.table`cells
      ensures s < 1 || e > NumColsOf(old(document.table.cells)) + 1 ==> document.table.cells == old(document.table.cells)
      ensures !(s < 1 || e > NumColsOf(old(document.table.cells)) + 1) ==>
        document.table.cells == ColHighlighted(old(document.table.cells), cellIndex.y, s, e)
    {
      var cols := document.table.NumCols();
      if s < 1 || e > cols + 1 {
        return;
      }
      ghost var cells0 := document.table.cells;
      var x := s;
      while x < e
        invariant s <= x && (x <= e || x == s)
        invariant document.table.cells == ColHighlighted(cells0, cellIndex.y, s, x)
        decreases (e as int) - x
      {
        var y := cellIndex.y;
        ColStep(cells0, y, s, x);
        document.MultiHighlight(Position(x, y));
        x := x + 1;
      }
    }

    /** The growth step of the post-key block: `insert_newrow` when the focus
        is below the last row, then `insert_newcol` when it is right of the
        last column. The document stays saved only when neither fires. */
    method Grow()
      modifies document`saved, document.table
      ensures document.table.cells == Grown(old(document.table.cells), cellIndex, document.table.measure)
      ensures document.saved == (old(document.saved)
        && cellIndex.y != NumRowsOf(old(document.table.cells)) + 1
        && cellIndex.x != NumColsOf(old(document.table.cells)) + 1)
      ensures |old(document.table.cells)| <= |document.table.cells|
      ensures CountersAfter(document.table.cells[|old(document.table.cells)|..],
        old(document.table.cellCount), old(document.table.widthSum), old(document.table.widestCellLength),
        document.table.cellCount, document.table.widthSum, document.table.widestCellLength)
    {
      ghost var cells0, saved0 := document.table.cells, document.saved;
      ghost var count0, sum0, widest0 := document.table.cellCount, document.table.widthSum, document.table.widestCellLength;
      var numRows := document.table.NumRows();
      var numCols := document.table.NumCols();
      GrowRow(numRows);
      ghost var cells1, saved1 := document.table.cells, document.saved;
      ghost var count1, sum1, widest1 := document.table.cellCount, document.table.widthSum, document.table.widestCellLength;
      GrownRowExtent(cells0, cellIndex, document.table.measure);
      GrowCol(numCols);
      GrowComposes(cells0, cells1, document.table.cells, cellIndex, document.table.measure,
        saved0, saved1, document.saved, count0, sum0, widest0, count1, sum1, widest1,
        document.table.cellCount, document.table.widthSum, document.table.widestCellLength);
    }

    /** The first half of the growth step: `insert_newrow` when the focus is
        below the `numRows` rows counted before growing. */
    method GrowRow(numRows: nat)
      requires numRows == NumRowsOf(document.table.cells)
      modifies document`saved, document.table
      ensures document.table.cells == GrownRow(old(document.table.cells), cellIndex, document.table.measure)
      ensures document.saved == (old(document.saved) && cellIndex.y != numRows + 1)
      ensures |old(document.table.cells)| <= |document.table.cells|
      ensures document.table.cells[..|old(document.table.cells)|] == old(document.table.cells)
      ensures CountersAfter(document.table.cells[|old(document.table.cells)|..],
        old(document.table.cellCount), old(document.table.widthSum), old(document.table.widestCellLength),
        document.table.cellCount, document.table.widthSum, document.table.widestCellLength)
    {
      if cellIndex.y > numRows {
        document.InsertNewRow(cellIndex);
      } else {
        ghost var cells := document.table.cells;
        assert cells[..|cells|] == cells && cells[|cells|..] == [];
      }
    }

    /** The second half: `insert_newcol` when the focus is right of the
        `numCols` columns counted before growing. */
    method GrowCol(numCols: nat)
      requires numCols == NumColsOf(document.table.cells)
      modifies document`saved, document.table
      ensures document.table.cells == GrownCol(old(document.table.cells), cellIndex, document.table.measure)
      ensures document.saved == (old(document.saved) && cellIndex.x != numCols + 1)
      ensures |old(document.table.cells)| <= |document.table.cells|
      ensures document.table.cells[..|old(document.table.cells)|] == old(document.table.cells)
      ensures CountersAfter(document.table.cells[|old(document.table.cells)|..],
        old(document.table.cellCount), old(document.table.widthSum), old(document.table.widestCellLength),
        document.table.cellCount, document.table.widthSum, document.table.widestCellLength)
    {
      if cellIndex.x > numCols {
        document.InsertNewCol(cellIndex);
      } else {
        ghost var cells := document.table.cells;
        assert cells[..|cells|] == cells && cells[|cells|..] == [];
      }
    }

    /** The end of `process_keypress`: grow the table when the focus is just
        past it; a focus on row 0 moves to row 1 and selects its whole
        column, a focus on column 0 moves to column 1 and selects its whole
        row; otherwise only the focus cell is selected and the view scrolls. */
    method AfterKey(termWidth: nat, termHeight: nat)
      requires termHeight >= 1
      modifies this`cellIndex, this`offset, document`saved, document.table
      ensures cellIndex == FocusOf(old(cellIndex))
      ensures document.table.cells == FocusedCells(Grown(old(document.table.cells), old(cellIndex), document.table.measure), old(cellIndex))
      ensures old(cellIndex.y) == 0 || old(cellIndex.x) == 0 ==> offset == old(offset)
      ensures old(cellIndex.y) != 0 && old(cellIndex.x) != 0 ==>
        && offset.y == ScrolledY(cellIndex.y, old(offset.y), termHeight - 1)
        && offset.x == ScrolledX(document.table.cells, cellIndex.x, old(offset.x), termWidth)
      ensures document.saved == (old(document.saved)
        && old(cellIndex.y) != NumRowsOf(old(document.table.cells)) + 1
        && old(cellIndex.x) != NumColsOf(old(document.table.cells)) + 1)
      ensures |old(document.table.cells)| <= |Grown(old(document.table.cells), old(cellIndex), document.table.measure)|
      ensures CountersAfter(Grown(old(document.table.cells), old(cellIndex), document.table.measure)[|old(document.table.cells)|..],
        old(document.table.cellCount), old(document.table.widthSum), old(document.table.widestCellLength),
        document.table.cellCount, document.table.widthSum, document.table.widestCellLength)
    {
      Grow();
      Focus(termWidth, termHeight);
    }

    /** The selection step of the post-key block, on the grown table: a
        focus on row 0 or column 0 moves onto the table and selects its
        column or row; otherwise the focus cell is selected and the view
        scrolls to it. */
    method Focus(termWidth: nat, termHeight: nat)
      requires termHeight >= 1
      modifies this`cellIndex, this`offset, document.table`cells
      ensures cellIndex == FocusOf(old(cellIndex))
      ensures document.table.cells == FocusedCells(old(document.table.cells), old(cellIndex))
      ensures old(cellIndex.y) == 0 || old(cellIndex.x) == 0 ==> offset == old(offset)
      ensures old(cellIndex.y) != 0 && old(cellIndex.x) != 0 ==>
        && offset.y == ScrolledY(cellIndex.y, old(offset.y), termHeight - 1)
        && offset.x == ScrolledX(document.table.cells, cellIndex.x, old(offset.x), termWidth)
      ensures document.table.cellCount == old(document.table.cellCount)
      ensures document.table.widthSum == old(document.table.widthSum)
      ensures document.table.widestCellLength == old(document.table.widestCellLength)
    {
      ghost var g := document.table.cells;
      if cellIndex.y == 0 {
        cellIndex := cellIndex.(y := cellIndex.y + 1);
        SelectColumn(g);
        return;
      }
      if cellIndex.x == 0 {
        cellIndex := cellIndex.(x := cellIndex.x + 1);
        SelectRow(g);
        return;
      }
      document.Highlight(cellIndex);
      Scroll(termWidth, termHeight);
    }

    /** After the focus escapes the top edge: select the focus cell, then
        every cell of its column. `g` names the cells before the call. */
    method SelectColumn(ghost g: seq<Cell>)
      requires document.table.cells == g
      modifies document.table`cells
      ensures document.table.cells == RowHighlighted(Highlighted(g, cellIndex), cellIndex.x, 1, NumRowsOf(g) + 1)
    {
      document.Highlight(cellIndex);
      HighlightKeepsExtent(g, cellIndex);
      var rows := document.table.NumRows();
      HighlightRow(1, rows + 1);
    }

    /** After the focus escapes the left edge: select the focus cell, then
        every cell of its row. `g` names the cells before the call. */
    method SelectRow(ghost g: seq<Cell>)
      requires document.table.cells == g
      modifies document.table`cells
      ensures document.table.cells == ColHighlighted(Highlighted(g, cellIndex), cellIndex.y, 1, NumColsOf(g) + 1)
    {
      document.Highlight(cellIndex);
      HighlightKeepsExtent(g, cellIndex);
      var cols := document.table.NumCols();
      HighlightCol(1, cols + 1);
    }
  }

  /** `highlight` moves no cell, so the extent stays. */
  lemma HighlightKeepsExtent(cells: seq<Cell>, at: Position)
    ensures NumRowsOf(Highlighted(cells, at)) == NumRowsOf(cells)
    ensures NumColsOf(Highlighted(cells, at)) == NumColsOf(cells)
  {
    HighlightedCells(cells, at);
    SamePlacesExtent(cells, Highlighted(cells, at));
  }

  // ----- num_to_let -----

  const Alphabet: string := "ABCDEFGHIJKLMNOPQRSTUVWXYZ"

  /** `num_to_let` as written: 'A' for every multiple of 26 (0 included),
      otherwise the letter at position `n % 26` of the alphabet. */
  function NumToLet(num: nat): (r: char)
    ensures 'A' <= r <= 'Z'
  {
    assert forall k :: 0 <= k < 26 ==> Alphabet[k] as int == 'A' as int + k;
    if num % 26 == 0 then 'A'
    else
      var idx := if 26 < num then num - (num / 26) * 26 else num;
      Alphabet[idx - 1]
  }

  /** The column letter the header evidently intends: letters A to Z cycle
      over columns 1, 2, 3, ..., so column 26 is 'Z'. */
  function ColumnLetter(n: nat): char
    requires n >= 1
  {
    Alphabet[(n - 1) % 26]
  }

  /** As written, column 26 is labelled 'A', the same as column 1. */
  lemma NumToLetRepeatsA()
    ensures NumToLet(26) == NumToLet(1) == 'A'
  {
  }

  /** As written, every column that is not a multiple of 26 gets the letter
      at its position modulo 26, and every multiple of 26 gets 'A'. */
  lemma NumToLetValues(n: nat)
    ensures n % 26 != 0 ==> NumToLet(n) == Alphabet[n % 26 - 1]
    ensures n % 26 == 0 ==> NumToLet(n) == 'A'
  {
  }

  /** The corrected letters agree with `num_to_let` except on multiples of
      26, where they give 'Z'. */
  lemma ColumnLetterAgrees(n: nat)
    requires n >= 1
    ensures n % 26 != 0 ==> ColumnLetter(n) == NumToLet(n)
    ensures n % 26 == 0 ==> ColumnLetter(n) == 'Z'
  {
    NumToLetValues(n);
    if n % 26 != 0 {
      assert (n - 1) % 26 == n % 26 - 1;
    } else {
      assert (n - 1) % 26 == 25;
    }
  }

  /** The corrected letters cycle with period 26. */
  lemma ColumnLetterPeriodic(n: nat)
    requires n >= 1
    ensures ColumnLetter(n + 26) == ColumnLetter(n)
  {
    assert (n + 25) % 26 == (n - 1) % 26;
  }

  /** The first 26 columns get 26 distinct letters. */
  lemma ColumnLetterDistinct(i: nat, j: nat)
    requires 1 <= i < j <= 26
    ensures ColumnLetter(i) != ColumnLetter(j)
  {
    assert (i - 1) % 26 == i - 1 && (j - 1) % 26 == j - 1;
    AlphabetDistinct(i - 1, j - 1);
  }

  lemma AlphabetDistinct(i: nat, j: nat)
    requires i < 26 && j < 26 && i != j
    ensures Alphabet[i] != Alphabet[j]
  {
    assert forall k :: 0 <= k < 26 ==> Alphabet[k] as int == 'A' as int + k;
  }
}
