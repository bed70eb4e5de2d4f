/** What the document's in-place edits do to the cell sequence
    (src/document.rs:197-247, src/document.rs:314-341). Each function is the
    cell sequence that the corresponding loop of `Document` rebuilds. */
module Edits {
  import opened Text
  import opened Cells
  import opened Tables

  /** `highlight`: each cell is selected when it sits at `at` and unselected otherwise. */
  function Highlighted(cells: seq<Cell>, at: Position): (r: seq<Cell>)
    ensures |r| == |cells|
  {
    if cells == [] then []
    else
      var c := cells[|cells| - 1];
      Highlighted(cells[..|cells| - 1], at) + [if At(c, at) then Highlight(c) else Unhighlight(c)]
  }

  /** `multi_highlight`: cells at `at` become selected. */
  function MultiHighlighted(cells: seq<Cell>, at: Position): (r: seq<Cell>)
    ensures |r| == |cells|
  {
    if cells == [] then []
    else
      var c := cells[|cells| - 1];
      MultiHighlighted(cells[..|cells| - 1], at) + [if At(c, at) then Highlight(c) else c]
  }

  /** `insert`: each cell at `at` is rebuilt from `s` by `Cell::from` and placed at `at`. */
  function Inserted(cells: seq<Cell>, at: Position, s: string, measure: Measure): (r: seq<Cell>)
    ensures |r| == |cells|
  {
    if cells == [] then []
    else
      var c := cells[|cells| - 1];
      Inserted(cells[..|cells| - 1], at, s, measure) + [if At(c, at) then PlacedText(s, measure, at.x, at.y) else c]
  }

  /** `delete`: each selected cell gets the text " " through `edit_content`. */
  function Deleted(cells: seq<Cell>): (r: seq<Cell>)
    ensures |r| == |cells|
  {
    if cells == [] then []
    else
      var c := cells[|cells| - 1];
      Deleted(cells[..|cells| - 1]) + [if c.highlighted then EditContent(c, " ") else c]
  }

  /** After `highlight(at)` every cell keeps its text, width and place, and is
      selected exactly when it sits at `at`. */
  lemma {:induction false} HighlightedCells(cells: seq<Cell>, at: Position)
    ensures SamePlaces(cells, Highlighted(cells, at))
    ensures forall i :: 0 <= i < |cells| ==>
      && Highlighted(cells, at)[i].contents == cells[i].contents
      && Highlighted(cells, at)[i].width == cells[i].width
      && (Highlighted(cells, at)[i].highlighted <==> At(cells[i], at))
  {
    if cells != [] {
      var init := cells[..|cells| - 1];
      HighlightedCells(init, at);
      assert forall i :: 0 <= i < |init| ==> Highlighted(cells, at)[i] == Highlighted(init, at)[i] && cells[i] == init[i];
    }
  }

  /** After `multi_highlight(at)` the cells at `at` are selected, every other
      flag is as it was, and texts, widths and places are unchanged. */
  lemma {:induction false} MultiHighlightedCells(cells: seq<Cell>, at: Position)
    ensures SamePlaces(cells, MultiHighlighted(cells, at))
    ensures forall i :: 0 <= i < |cells| ==>
      && MultiHighlighted(cells, at)[i].contents == cells[i].contents
      && MultiHighlighted(cells, at)[i].width == cells[i].width
      && (MultiHighlighted(cells, at)[i].highlighted <==> cells[i].highlighted || At(cells[i], at))
  {
    if cells != [] {
      var init := cells[..|cells| - 1];
      MultiHighlightedCells(init, at);
      assert forall i :: 0 <= i < |init| ==> MultiHighlighted(cells, at)[i] == MultiHighlighted(init, at)[i] && cells[i] == init[i];
    }
  }

  /** After `insert(at, s)` each cell at `at` is a fresh unselected cell holding
      `s` at the same place; every other cell is untouched, and no cell is
      created or removed. */
  lemma {:induction false} InsertedCells(cells: seq<Cell>, at: Position, s: string, measure: Measure)
    ensures SamePlaces(cells, Inserted(cells, at, s, measure))
    ensures forall i :: 0 <= i < |cells| ==>
      Inserted(cells, at, s, measure)[i] == if At(cells[i], at) then Cell(s, measure(s), at.x, at.y, false) else cells[i]
  {
    if cells != [] {
      var init := cells[..|cells| - 1];
      InsertedCells(init, at, s, measure);
      assert forall i :: 0 <= i < |init| ==> Inserted(cells, at, s, measure)[i] == Inserted(init, at, s, measure)[i] && cells[i] == init[i];
    }
  }

  /** After `delete` every selected cell holds " " with width 1 (its byte
      length) and every unselected cell is untouched. */
  lemma {:induction false} DeletedCells(cells: seq<Cell>)
    ensures SamePlaces(cells, Deleted(cells))
    ensures forall i :: 0 <= i < |cells| ==>
      Deleted(cells)[i] == if cells[i].highlighted then cells[i].(contents := " ", width := 1) else cells[i]
  {
    if cells != [] {
      var init := cells[..|cells| - 1];
      DeletedCells(init);
      assert forall i :: 0 <= i < |init| ==> Deleted(cells)[i] == Deleted(init)[i] && cells[i] == init[i];
    }
  }

  /** A row `y` of `cols` unselected cells, columns 1 to `cols`, all holding `fill`. */
  function FillerRow(fill: string, y: nat, cols: nat, measure: Measure): (r: seq<Cell>)
    ensures |r| == cols
    ensures forall i :: 0 <= i < cols ==> r[i] == Cell(fill, measure(fill), i + 1, y, false)
  {
    if cols == 0 then [] else FillerRow(fill, y, cols - 1, measure) + [PlacedText(fill, measure, cols, y)]
  }

  /** The cells `insert_newrow` adds for row `y` across `cols` columns: empty text.
      The row it evidently means to add is `FillerRow(" ", y, cols, measure)`,
      the filler `insert_newcol` uses, so that `save` writes an empty field for
      each of them. */
  function NewRow(y: nat, cols: nat, measure: Measure): seq<Cell>
  {
    FillerRow("", y, cols, measure)
  }

  /** The cells `insert_newcol` adds for column `x` across `rows` rows: one space. */
  function NewCol(x: nat, rows: nat, measure: Measure): (r: seq<Cell>)
    ensures |r| == rows
    ensures forall i :: 0 <= i < rows ==> r[i] == Cell(" ", measure(" "), x, i + 1, false)
  {
    if rows == 0 then [] else NewCol(x, rows - 1, measure) + [PlacedText(" ", measure, x, rows)]
  }

  /** `insert_newrow` fires only when `at` is on the row just below the table. */
  function GrownRow(cells: seq<Cell>, at: Position, measure: Measure): seq<Cell>
  {
    if at.y == NumRowsOf(cells) + 1 then cells + NewRow(at.y, NumColsOf(cells), measure) else cells
  }

  /** `insert_newcol` fires only when `at` is on the column just right of the table. */
  function GrownCol(cells: seq<Cell>, at: Position, measure: Measure): seq<Cell>
  {
    if at.x == NumColsOf(cells) + 1 then cells + NewCol(at.x, NumRowsOf(cells), measure) else cells
  }

  // ----- Lemmas -----

  /** After `highlight(at)` a cell is selected if and only if it sits at `at`. */
  lemma {:induction false} HighlightSelectsExactly(cells: seq<Cell>, at: Position, c: Cell)
    requires c in Highlighted(cells, at)
    ensures c.highlighted <==> At(c, at)
  {
    var r := Highlighted(cells, at);
    HighlightedCells(cells, at);
    var i :| 0 <= i < |r| && r[i] == c;
    assert Place(cells[i]) == Place(r[i]);
  }

  /** The extent of a concatenation is the larger of the two extents. */
  lemma {:induction false} ExtentOfConcat(a: seq<Cell>, b: seq<Cell>)
    ensures NumRowsOf(a + b) == if NumRowsOf(a) > NumRowsOf(b) then NumRowsOf(a) else NumRowsOf(b)
    ensures NumColsOf(a + b) == if NumColsOf(a) > NumColsOf(b) then NumColsOf(a) else NumColsOf(b)
  {
    if b == [] {
      assert a + b == a;
    } else {
      var init, c := b[..|b| - 1], b[|b| - 1];
      assert b == init + [c];
      ExtentOfConcat(a, init);
      AppendAssociates(a, init, c);
      ExtentAfterAppend(a + init, c);
      ExtentAfterAppend(init, c);
    }
  }

  lemma HasCellConcat(a: seq<Cell>, b: seq<Cell>, p: Position)
    ensures HasCell(a + b, p) <==> HasCell(a, p) || HasCell(b, p)
  {
    var s := a + b;
    if HasCell(a, p) {
      var i :| 0 <= i < |a| && At(a[i], p);
      assert At(s[i], p);
    }
    if HasCell(b, p) {
      var i :| 0 <= i < |b| && At(b[i], p);
      assert At(s[|a| + i], p);
    }
    if HasCell(s, p) {
      var i :| 0 <= i < |s| && At(s[i], p);
      if i < |a| { assert At(a[i], p); } else { assert At(b[i - |a|], p); }
    }
  }

  lemma NewRowExtent(y: nat, cols: nat, measure: Measure)
    ensures NumColsOf(NewRow(y, cols, measure)) == cols
    ensures NumRowsOf(NewRow(y, cols, measure)) == if cols == 0 then 0 else y
  {
    var r := NewRow(y, cols, measure);
    NumColsOfBounds(r);
    NumRowsOfBounds(r);
    if cols > 0 {
      assert r[0].yLoc == y;
      assert r[cols - 1].xLoc == cols;
    }
  }

  lemma NewColExtent(x: nat, rows: nat, measure: Measure)
    ensures NumRowsOf(NewCol(x, rows, measure)) == rows
    ensures NumColsOf(NewCol(x, rows, measure)) == if rows == 0 then 0 else x
  {
    var r := NewCol(x, rows, measure);
    if rows > 0 {
      assert r[0].xLoc == x;
      assert r[rows - 1].yLoc == rows;
    }
  }

  /** Looking a coordinate up in a concatenation finds the first part's cell
      when it has one, and the second part's otherwise. */
  lemma ContentAtConcat(a: seq<Cell>, b: seq<Cell>, p: Position)
    ensures HasCell(a + b, p) <==> HasCell(a, p) || HasCell(b, p)
    ensures ContentAt(a + b, p) == if HasCell(a, p) then ContentAt(a, p) else ContentAt(b, p)
  {
    HasCellConcat(a, b, p);
    var s := a + b;
    var k := if HasCell(a, p) then FirstAt(a, p) else |a| + FirstAt(b, p);
    forall j | 0 <= j < k ensures !At(s[j], p) {
      if j < |a| { assert s[j] == a[j]; } else { assert s[j] == b[j - |a|]; }
    }
    if k < |s| {
      if k < |a| { assert s[k] == a[k]; } else { assert s[k] == b[k - |a|]; }
    }
    FirstAtUnique(s, p, k);
  }

  lemma NewRowContent(y: nat, cols: nat, measure: Measure, x: nat)
    requires 1 <= x <= cols
    ensures ContentAt(NewRow(y, cols, measure), Position(x, y)) == ""
  {
    FirstAtUnique(NewRow(y, cols, measure), Position(x, y), x - 1);
  }

  lemma NewColContent(x: nat, rows: nat, measure: Measure, y: nat)
    requires 1 <= y <= rows
    ensures ContentAt(NewCol(x, rows, measure), Position(x, y)) == " "
  {
    FirstAtUnique(NewCol(x, rows, measure), Position(x, y), y - 1);
  }

  /** Growing a row on a table with columns adds exactly one row below the
      table and keeps the column count; growth anywhere else changes nothing. */
  lemma GrownRowExtent(cells: seq<Cell>, at: Position, measure: Measure)
    ensures at.y != NumRowsOf(cells) + 1 ==> GrownRow(cells, at, measure) == cells
    ensures NumColsOf(GrownRow(cells, at, measure)) == NumColsOf(cells)
    ensures at.y == NumRowsOf(cells) + 1 && NumColsOf(cells) > 0 ==>
      NumRowsOf(GrownRow(cells, at, measure)) == NumRowsOf(cells) + 1
  {
    if at.y == NumRowsOf(cells) + 1 {
      var nr := NewRow(at.y, NumColsOf(cells), measure);
      NewRowExtent(at.y, NumColsOf(cells), measure);
      ExtentOfConcat(cells, nr);
    }
  }

  /** The row that growth adds is complete and reads as empty text. */
  lemma GrownRowContent(cells: seq<Cell>, at: Position, measure: Measure, x: nat)
    requires at.y == NumRowsOf(cells) + 1 && 1 <= x <= NumColsOf(cells)
    ensures HasCell(GrownRow(cells, at, measure), Position(x, at.y))
    ensures ContentAt(GrownRow(cells, at, measure), Position(x, at.y)) == ""
  {
    var p := Position(x, at.y);
    var nr := NewRow(at.y, NumColsOf(cells), measure);
    NumRowsOfBounds(cells);
    assert !HasCell(cells, p);
    assert At(nr[x - 1], p);
    ContentAtConcat(cells, nr, p);
    NewRowContent(at.y, NumColsOf(cells), measure, x);
  }

  /** Growing a column on a table with rows adds exactly one column right of
      the table and keeps the row count; growth anywhere else changes nothing. */
  lemma GrownColExtent(cells: seq<Cell>, at: Position, measure: Measure)
    ensures at.x != NumColsOf(cells) + 1 ==> GrownCol(cells, at, measure) == cells
    ensures NumRowsOf(GrownCol(cells, at, measure)) == NumRowsOf(cells)
    ensures at.x == NumColsOf(cells) + 1 && NumRowsOf(cells) > 0 ==>
      NumColsOf(GrownCol(cells, at, measure)) == NumColsOf(cells) + 1
  {
    if at.x == NumColsOf(cells) + 1 {
      var nc := NewCol(at.x, NumRowsOf(cells), measure);
      NewColExtent(at.x, NumRowsOf(cells), measure);
      ExtentOfConcat(cells, nc);
    }
  }

  /** The column that growth adds is complete and reads as single spaces. */
  lemma GrownColContent(cells: seq<Cell>, at: Position, measure: Measure, y: nat)
    requires at.x == NumColsOf(cells) + 1 && 1 <= y <= NumRowsOf(cells)
    ensures HasCell(GrownCol(cells, at, measure), Position(at.x, y))
    ensures ContentAt(GrownCol(cells, at, measure), Position(at.x, y)) == " "
  {
    var p := Position(at.x, y);
    var nc := NewCol(at.x, NumRowsOf(cells), measure);
    NumColsOfBounds(cells);
    assert !HasCell(cells, p);
    assert At(nc[y - 1], p);
    ContentAtConcat(cells, nc, p);
    NewColContent(at.x, NumRowsOf(cells), measure, y);
  }

  /** Row growth keeps a dense grid dense. */
  lemma GrownRowKeepsDense(cells: seq<Cell>, at: Position, measure: Measure)
    requires Dense(cells)
    ensures Dense(GrownRow(cells, at, measure))
  {
    var g := GrownRow(cells, at, measure);
    GrownRowExtent(cells, at, measure);
    if at.y == NumRowsOf(cells) + 1 {
      forall x: nat, y: nat | 1 <= x <= NumColsOf(g) && 1 <= y <= NumRowsOf(g)
        ensures HasCell(g, Position(x, y))
      {
        if y == at.y {
          GrownRowContent(cells, at, measure, x);
        } else {
          HasCellConcat(cells, NewRow(at.y, NumColsOf(cells), measure), Position(x, y));
        }
      }
    }
  }

  /** Column growth keeps a dense grid dense. */
  lemma GrownColKeepsDense(cells: seq<Cell>, at: Position, measure: Measure)
    requires Dense(cells)
    ensures Dense(GrownCol(cells, at, measure))
  {
    var g := GrownCol(cells, at, measure);
    GrownColExtent(cells, at, measure);
    if at.x == NumColsOf(cells) + 1 {
      forall x: nat, y: nat | 1 <= x <= NumColsOf(g) && 1 <= y <= NumRowsOf(g)
        ensures HasCell(g, Position(x, y))
      {
        if x == at.x {
          GrownColContent(cells, at, measure, y);
        } else {
          HasCellConcat(cells, NewCol(at.x, NumRowsOf(cells), measure), Position(x, y));
        }
      }
    }
  }

  /** Row growth keeps coordinates 1-based and distinct. */
  lemma GrownRowKeepsPlaces(cells: seq<Cell>, at: Position, measure: Measure)
    requires WellPlaced(cells)
    ensures WellPlaced(GrownRow(cells, at, measure))
  {
    var rows := NumRowsOf(cells);
    if at.y == rows + 1 {
      var nr := NewRow(at.y, NumColsOf(cells), measure);
      var g := cells + nr;
      NumRowsOfBounds(cells);
      forall i | 0 <= i < |g| ensures g[i].xLoc >= 1 && g[i].yLoc >= 1 {
        if i >= |cells| { assert g[i] == nr[i - |cells|]; }
      }
      forall i, j | 0 <= i < j < |g| ensures Place(g[i]) != Place(g[j]) {
        if j >= |cells| {
          assert g[j] == nr[j - |cells|];
          if i < |cells| {
            assert g[i].yLoc <= rows;
          } else {
            assert g[i] == nr[i - |cells|];
          }
        }
      }
    }
  }

  /** Column growth keeps coordinates 1-based and distinct. */
  lemma GrownColKeepsPlaces(cells: seq<Cell>, at: Position, measure: Measure)
    requires WellPlaced(cells)
    ensures WellPlaced(GrownCol(cells, at, measure))
  {
    var cols := NumColsOf(cells);
    if at.x == cols + 1 {
      var nc := NewCol(at.x, NumRowsOf(cells), measure);
      var g := cells + nc;
      NumColsOfBounds(cells);
      forall i | 0 <= i < |g| ensures g[i].xLoc >= 1 && g[i].yLoc >= 1 {
        if i >= |cells| { assert g[i] == nc[i - |cells|]; }
      }
      forall i, j | 0 <= i < j < |g| ensures Place(g[i]) != Place(g[j]) {
        if j >= |cells| {
          assert g[j] == nc[j - |cells|];
          if i < |cells| {
            assert g[i].xLoc <= cols;
          } else {
            assert g[i] == nc[i - |cells|];
          }
        }
      }
    }
  }

  /** After `insert(at, s)` the text at `at` reads `s` if a cell was there, and
      every other coordinate reads as before; no coordinate gains a cell. */
  lemma ContentAfterInsert(cells: seq<Cell>, at: Position, s: string, measure: Measure, p: Position)
    ensures HasCell(Inserted(cells, at, s, measure), p) == HasCell(cells, p)
    ensures ContentAt(Inserted(cells, at, s, measure), p) ==
      if p == at && HasCell(cells, at) then s else ContentAt(cells, p)
  {
    var r := Inserted(cells, at, s, measure);
    InsertedCells(cells, at, s, measure);
    SamePlacesLookup(cells, r, p);
    var k := FirstAt(cells, p);
    if k < |cells| {
      assert At(cells[k], at) <==> p == at;
    }
  }

  /** After `delete` every selected cell reads " " and every other cell is as it was. */
  lemma ContentAfterDelete(cells: seq<Cell>, p: Position)
    ensures HasCell(Deleted(cells), p) == HasCell(cells, p)
    ensures ContentAt(Deleted(cells), p) ==
      if HasCell(cells, p) && cells[FirstAt(cells, p)].highlighted then " " else ContentAt(cells, p)
  {
    DeletedCells(cells);
    SamePlacesLookup(cells, Deleted(cells), p);
  }
}
