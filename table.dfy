/** The table: a flat sequence of cells with running counters (src/table.rs:59-181). */
module Tables {
  import opened Text
  import opened Cells

  /** `num_rows` over a cell sequence: the largest row index, 0 when there are no cells. */
  function NumRowsOf(cells: seq<Cell>): (n: nat)
    ensures cells == [] ==> n == 0
  {
    if cells == [] then 0
    else
      var m := NumRowsOf(cells[..|cells| - 1]);
      if cells[|cells| - 1].yLoc > m then cells[|cells| - 1].yLoc else m
  }

  /** `num_cols` over a cell sequence: the largest column index, 0 when there are no cells. */
  function NumColsOf(cells: seq<Cell>): (n: nat)
    ensures cells == [] ==> n == 0
  {
    if cells == [] then 0
    else
      var m := NumColsOf(cells[..|cells| - 1]);
      if cells[|cells| - 1].xLoc > m then cells[|cells| - 1].xLoc else m
  }

  /** The row count bounds every row index and is reached by some cell. */
  lemma {:induction false} NumRowsOfBounds(cells: seq<Cell>)
    ensures forall i :: 0 <= i < |cells| ==> cells[i].yLoc <= NumRowsOf(cells)
    ensures cells != [] ==> exists i :: 0 <= i < |cells| && cells[i].yLoc == NumRowsOf(cells)
  {
    if cells != [] {
      var init := cells[..|cells| - 1];
      NumRowsOfBounds(init);
      assert forall i :: 0 <= i < |init| ==> init[i] == cells[i];
      if cells[|cells| - 1].yLoc <= NumRowsOf(init) && init != [] {
        var k :| 0 <= k < |init| && init[k].yLoc == NumRowsOf(init);
        assert cells[k].yLoc == NumRowsOf(cells);
      }
    }
  }

  /** The column count bounds every column index and is reached by some cell. */
  lemma {:induction false} NumColsOfBounds(cells: seq<Cell>)
    ensures forall i :: 0 <= i < |cells| ==> cells[i].xLoc <= NumColsOf(cells)
    ensures cells != [] ==> exists i :: 0 <= i < |cells| && cells[i].xLoc == NumColsOf(cells)
  {
    if cells != [] {
      var init := cells[..|cells| - 1];
      NumColsOfBounds(init);
      assert forall i :: 0 <= i < |init| ==> init[i] == cells[i];
      if cells[|cells| - 1].xLoc <= NumColsOf(init) && init != [] {
        var k :| 0 <= k < |init| && init[k].xLoc == NumColsOf(init);
        assert cells[k].xLoc == NumColsOf(cells);
      }
    }
  }

  predicate InColumn(cells: seq<Cell>, x: nat)
  {
    exists i :: 0 <= i < |cells| && cells[i].xLoc == x
  }

  /** `column_width` over a cell sequence: the widest cell of column `x`, 0 if the column is empty. */
  function ColumnWidthOf(cells: seq<Cell>, x: nat): nat
  {
    if cells == [] then 0
    else
      var m := ColumnWidthOf(cells[..|cells| - 1], x);
      var c := cells[|cells| - 1];
      if c.xLoc == x && c.width > m then c.width else m
  }

  /** The column width bounds every cell of the column and is the width of
      one of them; an empty column has width 0. */
  lemma {:induction false} ColumnWidthOfBounds(cells: seq<Cell>, x: nat)
    ensures forall i :: 0 <= i < |cells| && cells[i].xLoc == x ==> cells[i].width <= ColumnWidthOf(cells, x)
    ensures InColumn(cells, x) ==> exists i :: 0 <= i < |cells| && cells[i].xLoc == x && cells[i].width == ColumnWidthOf(cells, x)
    ensures !InColumn(cells, x) ==> ColumnWidthOf(cells, x) == 0
  {
    if cells != [] {
      var init := cells[..|cells| - 1];
      var c := cells[|cells| - 1];
      ColumnWidthOfBounds(init, x);
      assert forall i :: 0 <= i < |init| ==> init[i] == cells[i];
      if InColumn(cells, x) && !(c.xLoc == x && c.width > ColumnWidthOf(init, x)) {
        if c.xLoc != x {
          var i :| 0 <= i < |cells| && cells[i].xLoc == x;
          assert init[i] == cells[i];
        }
        if InColumn(init, x) {
          var k :| 0 <= k < |init| && init[k].xLoc == x && init[k].width == ColumnWidthOf(init, x);
          assert cells[k] == init[k];
        }
      }
      if !InColumn(cells, x) {
        assert c.xLoc != x;
        assert !InColumn(init, x);
      }
    }
  }

  /** The largest width of any cell (the running `widest_cell_length`). */
  function WidestOf(cells: seq<Cell>): nat
  {
    if cells == [] then 0
    else
      var m := WidestOf(cells[..|cells| - 1]);
      if cells[|cells| - 1].width > m then cells[|cells| - 1].width else m
  }

  /** The widest width bounds every cell and is the width of one of them. */
  lemma {:induction false} WidestOfBounds(cells: seq<Cell>)
    ensures forall i :: 0 <= i < |cells| ==> cells[i].width <= WidestOf(cells)
    ensures cells != [] ==> exists i :: 0 <= i < |cells| && cells[i].width == WidestOf(cells)
  {
    if cells != [] {
      var init := cells[..|cells| - 1];
      WidestOfBounds(init);
      assert forall i :: 0 <= i < |init| ==> init[i] == cells[i];
      if cells[|cells| - 1].width <= WidestOf(init) && init != [] {
        var k :| 0 <= k < |init| && init[k].width == WidestOf(init);
        assert cells[k].width == WidestOf(cells);
      }
    }
  }

  /** The sum of all cell widths. */
  function WidthTotal(cells: seq<Cell>): nat
  {
    if cells == [] then 0 else WidthTotal(cells[..|cells| - 1]) + cells[|cells| - 1].width
  }

  predicate HasCell(cells: seq<Cell>, p: Position)
  {
    exists i :: 0 <= i < |cells| && At(cells[i], p)
  }

  /** The index of the first cell at `p`, or `|cells|` when there is none. */
  function FirstAt(cells: seq<Cell>, p: Position): (k: nat)
    ensures k <= |cells|
    ensures forall j :: 0 <= j < k ==> !At(cells[j], p)
    ensures k < |cells| ==> At(cells[k], p)
    ensures k < |cells| <==> HasCell(cells, p)
  {
    if cells == [] then 0
    else if At(cells[0], p) then 0
    else
      var k := 1 + FirstAt(cells[1..], p);
      assert HasCell(cells, p) ==> HasCell(cells[1..], p) by {
        if HasCell(cells, p) {
          var i :| 0 <= i < |cells| && At(cells[i], p);
          assert i > 0 && At(cells[1..][i - 1], p);
        }
      }
      k
  }

  /** The first index satisfying FirstAt's description is FirstAt. */
  lemma FirstAtUnique(cells: seq<Cell>, p: Position, k: nat)
    requires k <= |cells|
    requires forall j :: 0 <= j < k ==> !At(cells[j], p)
    requires k < |cells| ==> At(cells[k], p)
    ensures k == FirstAt(cells, p)
  {
  }

  /** `get_content_from` over a cell sequence: the text of the first cell at `p`, or "". */
  function ContentAt(cells: seq<Cell>, p: Position): (s: string)
    ensures !HasCell(cells, p) ==> s == ""
    ensures HasCell(cells, p) ==> exists i :: 0 <= i < |cells| && At(cells[i], p) && cells[i].contents == s
  {
    var k := FirstAt(cells, p);
    if k < |cells| then cells[k].contents else ""
  }

  /** Two cell sequences of the same length whose i-th cells share a coordinate. */
  predicate SamePlaces(a: seq<Cell>, b: seq<Cell>)
  {
    |a| == |b| && forall i :: 0 <= i < |a| ==> Place(a[i]) == Place(b[i])
  }

  /** Coordinate-preserving rewrites keep the extent, the set of occupied
      coordinates and which cell comes first at each of them. */
  lemma SamePlacesLookup(a: seq<Cell>, b: seq<Cell>, p: Position)
    requires SamePlaces(a, b)
    ensures FirstAt(a, p) == FirstAt(b, p)
    ensures HasCell(a, p) == HasCell(b, p)
  {
    var k := FirstAt(a, p);
    assert forall j :: 0 <= j < |a| ==> (At(a[j], p) <==> At(b[j], p)) by {
      forall j | 0 <= j < |a| ensures At(a[j], p) <==> At(b[j], p) {
        assert Place(a[j]) == Place(b[j]);
      }
    }
    FirstAtUnique(b, p, k);
  }

  lemma {:induction false} SamePlacesExtent(a: seq<Cell>, b: seq<Cell>)
    requires SamePlaces(a, b)
    ensures NumRowsOf(a) == NumRowsOf(b) && NumColsOf(a) == NumColsOf(b)
  {
    if a != [] {
      var n := |a| - 1;
      assert Place(a[n]) == Place(b[n]);
      assert SamePlaces(a[..n], b[..n]) by {
        forall i | 0 <= i < n ensures Place(a[..n][i]) == Place(b[..n][i]) {
          assert a[..n][i] == a[i] && b[..n][i] == b[i];
        }
      }
      SamePlacesExtent(a[..n], b[..n]);
    }
  }

  /** The grid is dense: every coordinate inside the extent holds a cell. */
  ghost predicate Dense(cells: seq<Cell>)
  {
    forall x: nat, y: nat :: 1 <= x <= NumColsOf(cells) && 1 <= y <= NumRowsOf(cells) ==> HasCell(cells, Position(x, y))
  }

  /** Stored coordinates are 1-based and no two cells share one. */
  ghost predicate WellPlaced(cells: seq<Cell>)
  {
    && (forall i :: 0 <= i < |cells| ==> cells[i].xLoc >= 1 && cells[i].yLoc >= 1)
    && (forall i, j :: 0 <= i < j < |cells| ==> Place(cells[i]) != Place(cells[j]))
  }

  lemma SamePlacesKeepShape(a: seq<Cell>, b: seq<Cell>)
    requires SamePlaces(a, b)
    ensures WellPlaced(a) ==> WellPlaced(b)
    ensures Dense(a) ==> Dense(b)
  {
    SamePlacesKeepDense(a, b);
    if WellPlaced(a) {
      forall i, j | 0 <= i < j < |b| ensures Place(b[i]) != Place(b[j]) {
        assert Place(a[i]) != Place(a[j]);
      }
      forall i | 0 <= i < |b| ensures b[i].xLoc >= 1 && b[i].yLoc >= 1 {
        assert Place(a[i]) == Place(b[i]);
      }
    }
  }

  lemma SamePlacesKeepDense(a: seq<Cell>, b: seq<Cell>)
    requires SamePlaces(a, b)
    ensures Dense(a) ==> Dense(b)
  {
    SamePlacesExtent(a, b);
    forall p: Position ensures HasCell(a, p) == HasCell(b, p) {
      SamePlacesLookup(a, b, p);
    }
  }

  // ----- Table::from -----

  /** The cell `Table::from` makes for one field: the field followed by a space. */
  function ParsedCell(field: string, x: nat, y: nat, measure: Measure): Cell
  {
    PlacedText(field + " ", measure, x, y)
  }

  /** The cells of line `y`, one per field, in ascending column order from 1. */
  function RowCells(fields: seq<string>, y: nat, measure: Measure): (r: seq<Cell>)
    ensures |r| == |fields|
    ensures forall i :: 0 <= i < |r| ==> r[i] == ParsedCell(fields[i], i + 1, y, measure)
  {
    if fields == [] then []
    else RowCells(fields[..|fields| - 1], y, measure) + [ParsedCell(fields[|fields| - 1], |fields|, y, measure)]
  }

  /** The cells of all lines, line by line; line k (1-based) becomes row k. */
  function ParsedCells(lines: seq<string>, measure: Measure): seq<Cell>
  {
    if lines == [] then []
    else ParsedCells(lines[..|lines| - 1], measure) + RowCells(Fields(lines[|lines| - 1]), |lines|, measure)
  }

  /** The state of the scan in `Table::from` after the first `i` characters of
      `line`: the pending field starts at `j`, and `row` holds the cells of the
      fields closed off so far. */
  ghost predicate Scanned(line: string, i: nat, j: nat, row: seq<Cell>, y: nat, measure: Measure)
  {
    && j <= i <= |line|
    && line[j..i] == Pending(line[..i])
    && row == RowCells(Completed(line[..i]), y, measure)
  }

  /** A comma closes the pending field into a new cell. */
  lemma ScanComma(line: string, i: nat, j: nat, row: seq<Cell>, y: nat, measure: Measure)
    requires Scanned(line, i, j, row, y, measure) && i < |line| && line[i] == ','
    ensures Scanned(line, i + 1, i + 1, row + [ParsedCell(line[j..i], |row| + 1, y, measure)], y, measure)
  {
    assert line[..i + 1][..i] == line[..i];
    var fs := Completed(line[..i]);
    assert Completed(line[..i + 1]) == fs + [line[j..i]];
    RowCellsAppend(fs, line[j..i], y, measure);
  }

  /** Any other character extends the pending field. */
  lemma ScanOther(line: string, i: nat, j: nat, row: seq<Cell>, y: nat, measure: Measure)
    requires Scanned(line, i, j, row, y, measure) && i < |line| && line[i] != ','
    ensures Scanned(line, i + 1, j, row, y, measure)
  {
    var p := line[..i + 1];
    assert p[..i] == line[..i] && p[i] == line[i];
    assert Pending(p) == Pending(line[..i]) + [line[i]];
    assert Completed(p) == Completed(line[..i]);
    assert line[j..i + 1] == line[j..i] + [line[i]];
  }

  lemma ParsedCellsAppend(lines: seq<string>, k: nat, measure: Measure)
    requires k < |lines|
    ensures ParsedCells(lines[..k + 1], measure) == ParsedCells(lines[..k], measure) + RowCells(Fields(lines[k]), k + 1, measure)
    ensures LongestLine(lines[..k + 1]) == if Utf8Len(lines[k]) > LongestLine(lines[..k]) then Utf8Len(lines[k]) else LongestLine(lines[..k])
  {
    assert lines[..k + 1][..k] == lines[..k];
  }

  lemma RowCellsAppend(fields: seq<string>, f: string, y: nat, measure: Measure)
    ensures RowCells(fields + [f], y, measure) == RowCells(fields, y, measure) + [ParsedCell(f, |fields| + 1, y, measure)]
  {
    assert (fields + [f])[..|fields|] == fields;
  }

  lemma AppendAssociates(a: seq<Cell>, b: seq<Cell>, c: Cell)
    ensures (a + b) + [c] == a + (b + [c])
  {
  }

  lemma WidestAppend(cells: seq<Cell>, c: Cell)
    ensures WidestOf(cells + [c]) == if c.width > WidestOf(cells) then c.width else WidestOf(cells)
  {
    assert (cells + [c])[..|cells|] == cells;
  }

  /** The longest line in bytes (what `Table::from` keeps in `width_sum`). */
  function LongestLine(lines: seq<string>): (n: nat)
    ensures forall i :: 0 <= i < |lines| ==> Utf8Len(lines[i]) <= n
    ensures lines == [] ==> n == 0
    ensures lines != [] ==> exists i :: 0 <= i < |lines| && Utf8Len(lines[i]) == n
  {
    if lines == [] then 0
    else
      var m := LongestLine(lines[..|lines| - 1]);
      if Utf8Len(lines[|lines| - 1]) > m then Utf8Len(lines[|lines| - 1]) else m
  }

  /** Row-major order: strictly ascending by row, then by column. */
  predicate Before(a: Cell, b: Cell)
  {
    a.yLoc < b.yLoc || (a.yLoc == b.yLoc && a.xLoc < b.xLoc)
  }

  /** Cell `c` is the cell `Table::from` makes for a field of `lines`. */
  ghost predicate ParsedFrom(lines: seq<string>, c: Cell, measure: Measure)
  {
    && 1 <= c.yLoc <= |lines|
    && 1 <= c.xLoc <= |Fields(lines[c.yLoc - 1])|
    && c == ParsedCell(Fields(lines[c.yLoc - 1])[c.xLoc - 1], c.xLoc, c.yLoc, measure)
  }

  /** Every parsed cell sits on a line that exists, in a column its line has,
      and holds that field followed by one space, with the measured width;
      nothing is selected. */
  lemma {:induction false} ParsedCellsContent(lines: seq<string>, measure: Measure)
    ensures forall c :: c in ParsedCells(lines, measure) ==> ParsedFrom(lines, c, measure)
  {
    if lines != [] {
      var n := |lines|;
      var init := lines[..n - 1];
      var a := ParsedCells(init, measure);
      var b := RowCells(Fields(lines[n - 1]), n, measure);
      ParsedCellsContent(init, measure);
      forall c | c in a + b ensures ParsedFrom(lines, c, measure) {
        if c in a {
          assert ParsedFrom(init, c, measure);
          assert lines[c.yLoc - 1] == init[c.yLoc - 1];
        } else {
          var i :| 0 <= i < |b| && b[i] == c;
        }
      }
    }
  }

  /** Parsed cells come in row-major order, so no coordinate repeats. */
  lemma {:induction false} ParsedCellsOrdered(lines: seq<string>, measure: Measure)
    ensures forall i, j :: 0 <= i < j < |ParsedCells(lines, measure)| ==>
      Before(ParsedCells(lines, measure)[i], ParsedCells(lines, measure)[j])
  {
    if lines != [] {
      var init := lines[..|lines| - 1];
      var a := ParsedCells(init, measure);
      var b := RowCells(Fields(lines[|lines| - 1]), |lines|, measure);
      ParsedCellsOrdered(init, measure);
      ParsedCellsContent(init, measure);
      assert forall c :: c in a ==> c.yLoc < |lines|;
      var s := a + b;
      forall i, j | 0 <= i < j < |s| ensures Before(s[i], s[j]) {
        if j < |a| {
          assert s[i] == a[i] && s[j] == a[j];
        } else if i < |a| {
          assert s[i] in a;
        } else {
          assert s[i] == b[i - |a|] && s[j] == b[j - |a|];
        }
      }
    }
  }

  /** Every field of every line is present at its coordinate. */
  lemma {:induction false} ParsedCellsComplete(lines: seq<string>, measure: Measure, x: nat, y: nat)
    requires 1 <= y <= |lines| && 1 <= x <= |Fields(lines[y - 1])|
    ensures ParsedCell(Fields(lines[y - 1])[x - 1], x, y, measure) in ParsedCells(lines, measure)
  {
    var init := lines[..|lines| - 1];
    var a := ParsedCells(init, measure);
    var b := RowCells(Fields(lines[|lines| - 1]), |lines|, measure);
    var c := ParsedCell(Fields(lines[y - 1])[x - 1], x, y, measure);
    assert ParsedCells(lines, measure) == a + b;
    if y == |lines| {
      assert c in b by {
        assert b[x - 1] == c;
      }
    } else {
      assert c in a by {
        assert init[y - 1] == lines[y - 1];
        ParsedCellsComplete(init, measure, x, y);
      }
    }
  }

  /** Each line yields at least one cell, so the row count is the line count. */
  lemma {:induction false} ParsedCellsRows(lines: seq<string>, measure: Measure)
    ensures NumRowsOf(ParsedCells(lines, measure)) == |lines|
  {
    ParsedCellsContent(lines, measure);
    var cells := ParsedCells(lines, measure);
    if lines != [] {
      JoinFields(lines[|lines| - 1]);
      ParsedCellsComplete(lines, measure, 1, |lines|);
      var c := ParsedCell(Fields(lines[|lines| - 1])[0], 1, |lines|, measure);
      var i :| 0 <= i < |cells| && cells[i] == c;
      var n := NumRowsOf(cells);
      NumRowsOfBounds(cells);
      var k :| 0 <= k < |cells| && cells[k].yLoc == n;
      assert cells[k] in cells;
    }
  }

  lemma OrderedWellPlaced(cells: seq<Cell>)
    requires forall i :: 0 <= i < |cells| ==> cells[i].xLoc >= 1 && cells[i].yLoc >= 1
    requires forall i, j :: 0 <= i < j < |cells| ==> Before(cells[i], cells[j])
    ensures WellPlaced(cells)
  {
  }

  lemma ParsedCellsWellPlaced(lines: seq<string>, measure: Measure)
    ensures WellPlaced(ParsedCells(lines, measure))
  {
    var cells := ParsedCells(lines, measure);
    ParsedCellsContent(lines, measure);
    ParsedCellsOrdered(lines, measure);
    assert forall i :: 0 <= i < |cells| ==> cells[i] in cells;
    OrderedWellPlaced(cells);
  }

  /** The inner loop of `Table::from` for line `y`: append a comma, then at every
      comma push a cell for the text since the previous comma, counting cells and
      tracking the widest. */
  method ScanLine(line0: string, y: nat, measure: Measure, cs0: seq<Cell>, count0: nat, widest0: nat)
    returns (cs: seq<Cell>, count: nat, widest: nat)
    requires count0 == |cs0| && widest0 == WidestOf(cs0)
    ensures cs == cs0 + RowCells(Fields(line0), y, measure)
    ensures count == |cs| && widest == WidestOf(cs)
  {
    cs, count, widest := cs0, count0, widest0;
    var j := 0;
    var line := line0 + [','];
    var x: nat := 0;
    ghost var row: seq<Cell> := [];
    for i := 0 to |line|
      invariant Scanned(line, i, j, row, y, measure)
      invariant x == |row|
      invariant cs == cs0 + row
      invariant count == |cs| && widest == WidestOf(cs)
    {
      if line[i] == ',' {
        ScanComma(line, i, j, row, y, measure);
        x := x + 1;
        var cell := PlacedText(line[j..i] + " ", measure, x, y);
        count := count + 1;
        if cell.width > widest {
          widest := cell.width;
        }
        WidestAppend(cs, cell);
        AppendAssociates(cs0, row, cell);
        row := row + [cell];
        cs := cs + [cell];
        j := i + 1;
      } else {
        ScanOther(line, i, j, row, y, measure);
      }
    }
    assert line[..|line|] == line;
  }

  /** The table of `src/table.rs`, updated in place by `add` and by the document. */
  class Table {
    var cells: seq<Cell>
    var widestCellLength: nat
    var widthSum: nat
    var cellCount: nat
    /** The display-width function `Cell::from` applies to every new cell. */
    const measure: Measure

    /** `Table::new`: no cells, counters at zero. */
    constructor New(measure: Measure)
      ensures cells == [] && widestCellLength == 0 && widthSum == 0 && cellCount == 0
      ensures this.measure == measure
    {
      cells := [];
      widestCellLength, widthSum, cellCount := 0, 0, 0;
      this.measure := measure;
    }

    /** `Table::from`: every line of `text` becomes a row; every comma-separated
        field becomes a cell holding the field and one trailing space. */
    constructor From(text: string, measure: Measure)
      ensures cells == ParsedCells(Lines(text), measure)
      ensures cellCount == |cells|
      ensures widestCellLength == WidestOf(cells)
      ensures widthSum == LongestLine(Lines(text))
      ensures this.measure == measure
    {
      var lines := Lines(text);
      var cs: seq<Cell> := [];
      var y: nat := 0;
      var count: nat := 0;
      var widest: nat := 0;
      var longest: nat := 0;
      for k := 0 to |lines|
        invariant y == k
        invariant cs == ParsedCells(lines[..k], measure)
        invariant count == |cs| && widest == WidestOf(cs)
        invariant longest == LongestLine(lines[..k])
      {
        y := y + 1;
        var line := lines[k];
        if Utf8Len(line) > longest {
          longest := Utf8Len(line);
        }
        cs, count, widest := ScanLine(line, y, measure, cs, count, widest);
        ParsedCellsAppend(lines, k, measure);
      }
      assert lines[..|lines|] == lines;
      cells := cs;
      widestCellLength := widest;
      widthSum := longest;
      cellCount := count;
      this.measure := measure;
    }

    /** `column_width`: a scan for the widest cell of column `x`. */
    method ColumnWidth(x: nat) returns (width: nat)
      ensures width == ColumnWidthOf(cells, x)
    {
      width := 0;
      for i := 0 to |cells|
        invariant width == ColumnWidthOf(cells[..i], x)
      {
        assert cells[..i + 1][..i] == cells[..i];
        if cells[i].xLoc == x {
          if cells[i].width > width {
            width := cells[i].width;
          }
        }
      }
      assert cells[..|cells|] == cells;
    }

    /** `get_content_from`: the text of the first cell at `at`, or "" when no cell is there. */
    method GetContentFrom(at: Position) returns (s: string)
      ensures s == ContentAt(cells, at)
      ensures !HasCell(cells, at) ==> s == ""
    {
      for i := 0 to |cells|
        invariant forall j :: 0 <= j < i ==> !At(cells[j], at)
      {
        if cells[i].xLoc == at.x && cells[i].yLoc == at.y {
          FirstAtUnique(cells, at, i);
          return cells[i].contents;
        }
      }
      FirstAtUnique(cells, at, |cells|);
      return "";
    }

    /** `add`: append one cell and update the counters. */
    method Add(cell: Cell)
      modifies this
      ensures cells == old(cells) + [cell]
      ensures widestCellLength == if cell.width > old(widestCellLength) then cell.width else old(widestCellLength)
      ensures widthSum == old(widthSum) + cell.width
      ensures cellCount == old(cellCount) + 1
    {
      if cell.width > widestCellLength {
        widestCellLength := cell.width;
      }
      widthSum := widthSum + cell.width;
      cellCount := cellCount + 1;
      cells := cells + [cell];
    }

    /** `num_rows`: a scan for the largest row index. */
    method NumRows() returns (n: nat)
      ensures n == NumRowsOf(cells)
    {
      n := 0;
      for i := 0 to |cells|
        invariant n == NumRowsOf(cells[..i])
      {
        assert cells[..i + 1][..i] == cells[..i];
        if cells[i].yLoc > n {
          n := cells[i].yLoc;
        }
      }
      assert cells[..|cells|] == cells;
    }

    /** `num_cols`: a scan for the largest column index. */
    method NumCols() returns (n: nat)
      ensures n == NumColsOf(cells)
    {
      n := 0;
      for i := 0 to |cells|
        invariant n == NumColsOf(cells[..i])
      {
        assert cells[..i + 1][..i] == cells[..i];
        if cells[i].xLoc > n {
          n := cells[i].xLoc;
        }
      }
      assert cells[..|cells|] == cells;
    }
  }

  /** Adding a cell raises each extent to at least the cell's coordinate. */
  lemma {:induction false} ExtentAfterAppend(cells: seq<Cell>, c: Cell)
    ensures NumRowsOf(cells + [c]) == if c.yLoc > NumRowsOf(cells) then c.yLoc else NumRowsOf(cells)
    ensures NumColsOf(cells + [c]) == if c.xLoc > NumColsOf(cells) then c.xLoc else NumColsOf(cells)
  {
    assert (cells + [c])[..|cells|] == cells;
  }
}
