/** The open document (src/document.rs): the table, the file it came from,
    whether it is saved, and the record that a single undo replays. */
module Documents {
  import opened Text
  import opened Cells
  import opened Tables
  import opened Edits
  import opened Clipboard
  import opened Persist

  datatype Option<T> = None | Some(value: T)

  /** The key presses the editor tells apart. `Other` stands for every key the
      model does not name. */
  datatype Key =
    | Null
    | Char(ch: char)
    | Ctrl(letter: char)
    | Delete
    | Up | Down | Left | Right
    | PageUp | PageDown | Home | End
    | Other

  /** The last undoable edit: the key that made it and the cells to write
      back, each with its text from before the edit. */
  datatype Action = Action(key: Key, cellsAffected: seq<Cell>)

  /** What `save` did: nothing (no file name), wrote `lines` (each followed by
      a newline) to `target`, or could not create `target`. */
  datatype SaveResult =
    | Unnamed
    | Written(target: string, lines: seq<string>)
    | CreateFailed(target: string)

  /** `get_row`: for each column from 1 to `n`, the first cell at that column
      on row `index`, or a fresh unselected " " cell placed there. */
  function RowView(cells: seq<Cell>, index: nat, n: nat, measure: Measure): (r: seq<Cell>)
    ensures |r| == n
  {
    if n == 0 then []
    else
      var p := Position(n, index);
      RowView(cells, index, n - 1, measure)
        + [if HasCell(cells, p) then cells[FirstAt(cells, p)] else PlacedText(" ", measure, n, index)]
  }

  /** Entry `x - 1` of a row view sits at column `x` of the row and shows what
      `get_content_from` reads there, or " " for a gap. */
  lemma {:induction false} RowViewCells(cells: seq<Cell>, index: nat, n: nat, measure: Measure)
    ensures forall x :: 1 <= x <= n ==>
      && Place(RowView(cells, index, n, measure)[x - 1]) == Position(x, index)
      && RowView(cells, index, n, measure)[x - 1].contents ==
           (if HasCell(cells, Position(x, index)) then ContentAt(cells, Position(x, index)) else " ")
  {
    if n > 0 {
      RowViewCells(cells, index, n - 1, measure);
    }
  }

  /** The table `Default` starts from: one two-space cell at (1, 1). */
  lemma BlankSheet(measure: Measure)
    ensures ParsedCells(Lines(" "), measure) == [Cell("  ", measure("  "), 1, 1, false)]
    ensures LongestLine(Lines(" ")) == 1
    ensures WidestOf([Cell("  ", measure("  "), 1, 1, false)]) == measure("  ")
    ensures WellPlaced([Cell("  ", measure("  "), 1, 1, false)])
  {
    BlankLines();
    BlankFields();
    var row := RowCells([" "], 1, measure);
    assert row == [PlacedText("  ", measure, 1, 1)] by {
      assert row[0] == ParsedCell(" ", 1, 1, measure);
      assert " " + " " == "  ";
    }
    assert ParsedCells([" "], measure) == row by {
      assert [" "][..0] == [];
    }
    SingleCell(Cell("  ", measure("  "), 1, 1, false));
  }

  /** `Table::from(" ")`, the table `Document::default` starts from. */
  method BlankTable(measure: Measure) returns (t: Table)
    ensures fresh(t) && t.measure == measure
    ensures t.cells == [Cell("  ", measure("  "), 1, 1, false)]
    ensures t.widestCellLength == measure("  ") && t.widthSum == 1
    ensures WellPlaced(t.cells)
  {
    BlankSheet(measure);
    t := new Table.From(" ", measure);
  }

  lemma SingleCell(c: Cell)
    ensures WidestOf([c]) == c.width
  {
    assert [c][..0] == [];
  }

  lemma BlankLines()
    ensures Lines(" ") == [" "]
    ensures LongestLine([" "]) == 1
  {
    assert IndexOf(" ", '\n') == 1;
    assert [" "][..0] == [];
    assert Utf8Len(" ") == Utf8Len("") + CharUtf8Len(' ');
  }

  lemma BlankFields()
    ensures Fields(" ") == [" "]
  {
    FieldsSplitLast(" ");
    assert " "[..0] == [];
    assert Completed(" ") == [];
    assert Pending(" ") == Pending([]) + [' '];
    assert Pending(" ") == " ";
    assert Completed(" ") + [Pending(" ")] == [" "];
  }

  /** The counters `add` keeps, after appending `added` to a table whose
      counters were `count0`, `sum0` and `widest0`: one more per cell, the
      widths summed, the largest width kept. */
  predicate CountersAfter(added: seq<Cell>, count0: nat, sum0: nat, widest0: nat, count: nat, sum: nat, widest: nat)
  {
    && count == count0 + |added|
    && sum == sum0 + WidthTotal(added)
    && widest == (if WidestOf(added) > widest0 then WidestOf(added) else widest0)
  }

  lemma CountersStep(added: seq<Cell>, c: Cell, count0: nat, sum0: nat, widest0: nat, count: nat, sum: nat, widest: nat)
    requires CountersAfter(added, count0, sum0, widest0, count, sum, widest)
    ensures CountersAfter(added + [c], count0, sum0, widest0, count + 1, sum + c.width,
      if c.width > widest then c.width else widest)
  {
    WidestAppend(added, c);
    assert (added + [c])[..|added|] == added;
  }

  /** The counters `add` keeps over `a` and then `b` are those over `a + b`. */
  lemma {:induction false} CountersCompose(a: seq<Cell>, b: seq<Cell>, count0: nat, sum0: nat, widest0: nat,
    count1: nat, sum1: nat, widest1: nat, count: nat, sum: nat, widest: nat)
    requires CountersAfter(a, count0, sum0, widest0, count1, sum1, widest1)
    requires CountersAfter(b, count1, sum1, widest1, count, sum, widest)
    ensures CountersAfter(a + b, count0, sum0, widest0, count, sum, widest)
    decreases |b|
  {
    if b == [] {
      assert a + b == a;
    } else {
      var init, c := b[..|b| - 1], b[|b| - 1];
      var w := if WidestOf(init) > widest1 then WidestOf(init) else widest1;
      assert CountersAfter(init, count1, sum1, widest1, count - 1, sum - c.width, w) by {
        WidestAppend(init, c);
        assert init + [c] == b;
      }
      CountersCompose(a, init, count0, sum0, widest0, count1, sum1, widest1, count - 1, sum - c.width, w);
      CountersStep(a + init, c, count0, sum0, widest0, count - 1, sum - c.width, w);
      assert (a + init) + [c] == a + b;
    }
  }

  /** Two growth steps, each appending to the cells before it, keep the
      counters of everything appended. */
  lemma CountersThrough(cells0: seq<Cell>, cells1: seq<Cell>, cells: seq<Cell>, count0: nat, sum0: nat, widest0: nat,
    count1: nat, sum1: nat, widest1: nat, count: nat, sum: nat, widest: nat)
    requires |cells0| <= |cells1| <= |cells| && cells[..|cells1|] == cells1
    requires CountersAfter(cells1[|cells0|..], count0, sum0, widest0, count1, sum1, widest1)
    requires CountersAfter(cells[|cells1|..], count1, sum1, widest1, count, sum, widest)
    ensures CountersAfter(cells[|cells0|..], count0, sum0, widest0, count, sum, widest)
  {
    assert cells[|cells0|..] == cells1[|cells0|..] + cells[|cells1|..];
    CountersCompose(cells1[|cells0|..], cells[|cells1|..], count0, sum0, widest0, count1, sum1, widest1, count, sum, widest);
  }

  class Document {
    var fileName: Option<string>
    const table: Table
    var saved: bool
    var lastAction: Action

    /** `Document::default`: the table read from " ", with its cell count
        reset to 0, unnamed, unsaved, and nothing to undo. */
    constructor Default(measure: Measure)
      ensures fresh(table) && table.measure == measure
      ensures table.cells == [Cell("  ", measure("  "), 1, 1, false)]
      ensures table.cellCount == 0 && table.widestCellLength == measure("  ") && table.widthSum == 1
      ensures WellPlaced(table.cells)
      ensures fileName == None && !saved && lastAction == Action(Null, [])
    {
      var t := BlankTable(measure);
      t.cellCount := 0;
      table := t;
      fileName := None;
      saved := false;
      lastAction := Action(Null, []);
    }

    /** The common end of `open` for a CSV file whose text is `text` (the
        workbook readers hand their rows, joined by newlines, to the same
        `Table::from`): named, saved, nothing to undo. */
    constructor Open(name: string, text: string, measure: Measure)
      ensures fresh(table) && table.measure == measure
      ensures table.cells == ParsedCells(Lines(text), measure) && table.cellCount == |table.cells|
      ensures table.widestCellLength == WidestOf(table.cells) && table.widthSum == LongestLine(Lines(text))
      ensures WellPlaced(table.cells)
      ensures fileName == Some(name) && saved && lastAction == Action(Null, [])
    {
      table := new Table.From(text, measure);
      fileName := Some(name);
      saved := true;
      lastAction := Action(Null, []);
      ParsedCellsWellPlaced(Lines(text), measure);
    }

    /** `is_empty`: the table counts no cells, which is `len() == 0`. */
    predicate IsEmpty()
      reads this, table
      ensures IsEmpty() <==> Len() == 0
    {
      table.cellCount == 0
    }

    predicate IsSaved()
      reads this
    {
      saved
    }

    function Len(): nat
      reads this, table
    {
      table.cellCount
    }

    /** The inner search of `get_row`: the first cell at `p`, if any. */
    method CellAt(p: Position) returns (found: Option<Cell>)
      ensures found.Some? <==> HasCell(table.cells, p)
      ensures found.Some? ==> found.value == table.cells[FirstAt(table.cells, p)] && At(found.value, p)
    {
      var cells := table.cells;
      for i := 0 to |cells|
        invariant forall j :: 0 <= j < i ==> !At(cells[j], p)
      {
        if cells[i].xLoc == p.x && cells[i].yLoc == p.y {
          FirstAtUnique(cells, p, i);
          return Some(cells[i]);
        }
      }
      FirstAtUnique(cells, p, |cells|);
      return None;
    }

    /** `get_row`: one cell per column of the table for row `index`. */
    method GetRow(index: nat) returns (row: seq<Cell>)
      ensures row == RowView(table.cells, index, NumColsOf(table.cells), table.measure)
    {
      var ncols := table.NumCols();
      row := [];
      for x := 1 to ncols + 1
        invariant row == RowView(table.cells, index, x - 1, table.measure)
      {
        var found := CellAt(Position(x, index));
        if found.Some? {
          row := row + [found.value];
        } else {
          var empty := PlacedText(" ", table.measure, x, index);
          row := row + [empty];
        }
      }
    }

    /** `insert_newrow`: when `at` is on the row just below the table, add an
        empty cell at every column of that row. */
    method InsertNewRow(at: Position)
      modifies this`saved, table
      ensures table.cells == GrownRow(old(table.cells), at, table.measure)
      ensures table.cells[..|old(table.cells)|] == old(table.cells)
      ensures saved == (old(saved) && at.y != NumRowsOf(old(table.cells)) + 1)
      ensures |old(table.cells)| <= |table.cells|
      ensures CountersAfter(table.cells[|old(table.cells)|..], old(table.cellCount), old(table.widthSum),
        old(table.widestCellLength), table.cellCount, table.widthSum, table.widestCellLength)
    {
      var rows := table.NumRows();
      if at.y == rows + 1 {
        var cols := table.NumCols();
        AddRow(at.y, cols);
        assert table.cells[|old(table.cells)|..] == NewRow(at.y, cols, table.measure);
        assert table.cells[..|old(table.cells)|] == old(table.cells);
        saved := false;
      } else {
        assert table.cells[|table.cells|..] == [];
        assert table.cells[..|table.cells|] == table.cells;
      }
    }

    /** The loop of `insert_newrow`: `add` an empty cell at columns 1 to
        `cols` of row `y`. */
    method AddRow(y: nat, cols: nat)
      modifies table
      ensures table.cells == old(table.cells) + NewRow(y, cols, table.measure)
      ensures CountersAfter(NewRow(y, cols, table.measure), old(table.cellCount), old(table.widthSum),
        old(table.widestCellLength), table.cellCount, table.widthSum, table.widestCellLength)
    {
      for i := 1 to cols + 1
        invariant table.cells == old(table.cells) + NewRow(y, i - 1, table.measure)
        invariant CountersAfter(NewRow(y, i - 1, table.measure), old(table.cellCount), old(table.widthSum),
          old(table.widestCellLength), table.cellCount, table.widthSum, table.widestCellLength)
      {
        var cell := PlacedText("", table.measure, i, y);
        AppendAssociates(old(table.cells), NewRow(y, i - 1, table.measure), cell);
        CountersStep(NewRow(y, i - 1, table.measure), cell, old(table.cellCount), old(table.widthSum),
          old(table.widestCellLength), table.cellCount, table.widthSum, table.widestCellLength);
        table.Add(cell);
      }
    }

    /** `insert_newcol`: when `at` is on the column just right of the table,
        add a " " cell at every row of that column. */
    method InsertNewCol(at: Position)
      modifies this`saved, table
      ensures table.cells == GrownCol(old(table.cells), at, table.measure)
      ensures table.cells[..|old(table.cells)|] == old(table.cells)
      ensures saved == (old(saved) && at.x != NumColsOf(old(table.cells)) + 1)
      ensures |old(table.cells)| <= |table.cells|
      ensures CountersAfter(table.cells[|old(table.cells)|..], old(table.cellCount), old(table.widthSum),
        old(table.widestCellLength), table.cellCount, table.widthSum, table.widestCellLength)
    {
      var cols := table.NumCols();
      if at.x == cols + 1 {
        var rows := table.NumRows();
        AddCol(at.x, rows);
        assert table.cells[|old(table.cells)|..] == NewCol(at.x, rows, table.measure);
        assert table.cells[..|old(table.cells)|] == old(table.cells);
        saved := false;
      } else {
        assert table.cells[|table.cells|..] == [];
        assert table.cells[..|table.cells|] == table.cells;
      }
    }

    /** The loop of `insert_newcol`: `add` a " " cell at rows 1 to `rows` of
        column `x`. */
    method AddCol(x: nat, rows: nat)
      modifies table
      ensures table.cells == old(table.cells) + NewCol(x, rows, table.measure)
      ensures CountersAfter(NewCol(x, rows, table.measure), old(table.cellCount), old(table.widthSum),
        old(table.widestCellLength), table.cellCount, table.widthSum, table.widestCellLength)
    {
      for i := 1 to rows + 1
        invariant table.cells == old(table.cells) + NewCol(x, i - 1, table.measure)
        invariant CountersAfter(NewCol(x, i - 1, table.measure), old(table.cellCount), old(table.widthSum),
          old(table.widestCellLength), table.cellCount, table.widthSum, table.widestCellLength)
      {
        var cell := PlacedText(" ", table.measure, x, i);
        AppendAssociates(old(table.cells), NewCol(x, i - 1, table.measure), cell);
        CountersStep(NewCol(x, i - 1, table.measure), cell, old(table.cellCount), old(table.widthSum),
          old(table.widestCellLength), table.cellCount, table.widthSum, table.widestCellLength);
        table.Add(cell);
      }
    }

    /** `highlight`: select the cell at `at` and unselect every other one. */
    method Highlight(at: Position)
      modifies table`cells
      ensures table.cells == Highlighted(old(table.cells), at)
    {
      var cells := table.cells;
      table.cells := [];
      for i := 0 to |cells|
        invariant table.cells == Highlighted(cells[..i], at)
      {
        var c := cells[i];
        if c.xLoc == at.x && c.yLoc == at.y {
          c := Cells.Highlight(c);
        } else {
          c := Unhighlight(c);
        }
        assert cells[..i + 1][..i] == cells[..i];
        table.cells := table.cells + [c];
      }
      assert cells[..|cells|] == cells;
    }

    /** `multi_highlight`: also select the cell at `at`, keeping the rest. */
    method MultiHighlight(at: Position)
      modifies table`cells
      ensures table.cells == MultiHighlighted(old(table.cells), at)
    {
      var cells := table.cells;
      table.cells := [];
      for i := 0 to |cells|
        invariant table.cells == MultiHighlighted(cells[..i], at)
      {
        var c := cells[i];
        if c.xLoc == at.x && c.yLoc == at.y {
          c := Cells.Highlight(c);
        }
        assert cells[..i + 1][..i] == cells[..i];
        table.cells := table.cells + [c];
      }
      assert cells[..|cells|] == cells;
    }

    /** `get_highlight_cells`: the selected cells, in table order. */
    method GetHighlightCells() returns (r: seq<Cell>)
      ensures r == Selected(table.cells)
    {
      var cells := table.cells;
      r := [];
      for i := 0 to |cells|
        invariant r == Selected(cells[..i])
      {
        assert cells[..i + 1][..i] == cells[..i];
        if cells[i].highlighted {
          r := r + [cells[i]];
        }
      }
      assert cells[..|cells|] == cells;
    }

    /** `copy`: the same scan as `get_highlight_cells`; it never fails. */
    method Copy() returns (r: seq<Cell>)
      ensures r == Selected(table.cells)
    {
      r := GetHighlightCells();
    }

    /** `insert`: rebuild the cell at `at` from `line`; the document is unsaved. */
    method Insert(at: Position, line: string)
      modifies this`saved, table`cells
      ensures table.cells == Inserted(old(table.cells), at, line, table.measure)
      ensures !saved
    {
      saved := false;
      var cells := table.cells;
      table.cells := [];
      for i := 0 to |cells|
        invariant table.cells == Inserted(cells[..i], at, line, table.measure)
        invariant !saved
      {
        var c := cells[i];
        assert cells[..i + 1][..i] == cells[..i];
        if c.xLoc == at.x && c.yLoc == at.y {
          var cell := PlacedText(line, table.measure, at.x, at.y);
          table.cells := table.cells + [cell];
        } else {
          table.cells := table.cells + [c];
        }
      }
      assert cells[..|cells|] == cells;
    }

    /** `delete`: every selected cell's text becomes " "; the document is unsaved. */
    method Delete()
      modifies this`saved, table`cells
      ensures table.cells == Deleted(old(table.cells))
      ensures !saved
    {
      var cells := table.cells;
      table.cells := [];
      saved := false;
      for i := 0 to |cells|
        invariant table.cells == Deleted(cells[..i])
        invariant !saved
      {
        var c := cells[i];
        if c.highlighted {
          c := EditContent(c, " ");
        }
        assert cells[..i + 1][..i] == cells[..i];
        table.cells := table.cells + [c];
      }
      assert cells[..|cells|] == cells;
    }

    /** `undo`: unless there is nothing recorded, write every recorded cell's
        text back at its place, in order. The record itself is kept. */
    method Undo()
      modifies this`saved, table`cells
      ensures lastAction.key == Null ==> table.cells == old(table.cells) && saved == old(saved)
      ensures lastAction.key != Null ==>
        && table.cells == Overwritten(old(table.cells), lastAction.cellsAffected, table.measure)
        && saved == (old(saved) && lastAction.cellsAffected == [])
    {
      if lastAction.key == Null {
        return;
      }
      var affected := lastAction.cellsAffected;
      for k := 0 to |affected|
        invariant table.cells == Overwritten(old(table.cells), affected[..k], table.measure)
        invariant saved == (old(saved) && k == 0)
      {
        var cell := affected[k];
        Insert(Position(cell.xLoc, cell.yLoc), cell.contents);
        assert affected[..k + 1][..k] == affected[..k];
      }
      assert affected[..|affected|] == affected;
    }

    /** `paste`: write the clipboard entries from `at` on (a 0 coordinate
        counts as 1), moving one column right or one row down per entry as
        the clipboard does, and record each overwritten text for undo. The
        source takes the first entry unconditionally, so the clipboard must
        not be empty. */
    method Paste(at: Position, clip: seq<Cell>)
      requires clip != []
      modifies this`saved, this`lastAction, table`cells
      ensures table.cells == Overwritten(old(table.cells), Reanchored(Clamped(at), clip), table.measure)
      ensures lastAction == Action(old(lastAction.key), Snapshots(old(table.cells), Reanchored(Clamped(at), clip), table.measure))
      ensures !saved
    {
      saved := false;
      lastAction := lastAction.(cellsAffected := []);
      var x, y := at.x, at.y;
      if x == 0 {
        x := 1;
      }
      if y == 0 {
        y := 1;
      }
      PasteFrom(x, y, clip, table.cells);
    }

    /** The loop of `paste`: starting at (`x`, `y`), write each entry of
        `clip` where the cursor stands, stepping right or down as the entries
        do, and record what each write replaced. `cells0` names the cells
        before the loop. */
    method PasteFrom(x0: nat, y0: nat, clip: seq<Cell>, ghost cells0: seq<Cell>)
      requires clip != []
      requires table.cells == cells0 && lastAction.cellsAffected == [] && !saved
      modifies this`saved, this`lastAction, table`cells
      ensures table.cells == Overwritten(cells0, Reanchored(Position(x0, y0), clip), table.measure)
      ensures lastAction == Action(old(lastAction.key), Snapshots(cells0, Reanchored(Position(x0, y0), clip), table.measure))
      ensures !saved
    {
      var x, y := x0, y0;
      var prevX, prevY := clip[0].xLoc, clip[0].yLoc;
      ghost var start := Position(x, y);
      assert Reanchored(start, clip[..0]) == [] by {
        assert clip[..0] == [];
      }
      assert lastAction == Action(old(lastAction.key), []);
      for k := 0 to |clip|
        invariant table.cells == Overwritten(cells0, Reanchored(start, clip[..k]), table.measure)
        invariant lastAction == Action(old(lastAction.key), Snapshots(cells0, Reanchored(start, clip[..k]), table.measure))
        invariant Position(x, y) == Cursor(start, Reanchored(start, clip[..k]))
        invariant prevX == clip[Previous(k)].xLoc && prevY == clip[Previous(k)].yLoc
        invariant !saved
      {
        x, y := PasteEntry(k, clip, start, cells0, x, y, prevX, prevY);
        prevX, prevY := clip[k].xLoc, clip[k].yLoc;
      }
      assert Reanchored(start, clip[..|clip|]) == Reanchored(start, clip) by {
        assert clip[..|clip|] == clip;
      }
    }

    /** One turn of `paste`'s loop: step the cursor from (`x`, `y`) as entry
        `k` of `clip` asks, then write that entry there and record what it
        replaced. */
    method PasteEntry(k: nat, clip: seq<Cell>, ghost start: Position, ghost cells0: seq<Cell>,
      x: nat, y: nat, prevX: nat, prevY: nat) returns (x': nat, y': nat)
      requires k < |clip|
      requires Position(x, y) == Cursor(start, Reanchored(start, clip[..k]))
      requires prevX == clip[Previous(k)].xLoc && prevY == clip[Previous(k)].yLoc
      requires table.cells == Overwritten(cells0, Reanchored(start, clip[..k]), table.measure)
      requires lastAction.cellsAffected == Snapshots(cells0, Reanchored(start, clip[..k]), table.measure)
      modifies this`saved, this`lastAction, table`cells
      ensures Position(x', y') == Cursor(start, Reanchored(start, clip[..k + 1]))
      ensures table.cells == Overwritten(cells0, Reanchored(start, clip[..k + 1]), table.measure)
      ensures lastAction == old(lastAction).(cellsAffected := Snapshots(cells0, Reanchored(start, clip[..k + 1]), table.measure))
      ensures !saved
    {
      var cell := clip[k];
      ghost var done := Reanchored(start, clip[..k]);
      x', y' := Advance(x, y, prevX, prevY, clip[Previous(k)], cell);
      ghost var e := cell.(xLoc := x', yLoc := y');
      assert done + [e] == Reanchored(start, clip[..k + 1]) by {
        ReanchoredStep(start, clip, k, Position(x, y), clip[Previous(k)]);
      }
      PasteOne(cell, Position(x', y'), cells0, done);
    }

    /** One iteration of `paste`'s loop: record the text at `p` (with the
        entry's other fields, placed at `p`) for undo, then write the entry's
        text at `p`. */
    method PasteOne(cell: Cell, p: Position, ghost cells0: seq<Cell>, ghost done: seq<Cell>)
      requires table.cells == Overwritten(cells0, done, table.measure)
      requires lastAction.cellsAffected == Snapshots(cells0, done, table.measure)
      modifies this`saved, this`lastAction, table`cells
      ensures table.cells == Overwritten(cells0, done + [cell.(xLoc := p.x, yLoc := p.y)], table.measure)
      ensures lastAction == old(lastAction).(cellsAffected := Snapshots(cells0, done + [cell.(xLoc := p.x, yLoc := p.y)], table.measure))
      ensures !saved
    {
      ghost var e := cell.(xLoc := p.x, yLoc := p.y);
      OverwrittenStep(cells0, done, e, table.measure);
      var here := table.GetContentFrom(p);
      var c := cell.(contents := here, xLoc := p.x, yLoc := p.y);
      lastAction := lastAction.(cellsAffected := lastAction.cellsAffected + [c]);
      Insert(p, cell.contents);
    }

    /** `save`: with a file name, remap a spreadsheet name to its ".csv"
        sibling and store it, then (when the file can be created) write one
        line per row: each cell's text loses its last character and is
        followed by a comma, and the row loses its final comma. The creation
        outcome is the parameter `createOk`. */
    method Save(createOk: bool) returns (r: SaveResult)
      modifies this`fileName, this`saved
      ensures old(fileName).None? ==> r == Unnamed && fileName == old(fileName) && saved == old(saved)
      ensures old(fileName).Some? ==> fileName == Some(TargetName(old(fileName).value))
      ensures old(fileName).Some? && createOk ==>
        r == Written(TargetName(old(fileName).value), SavedLines(table.cells, NumRowsOf(table.cells))) && saved
      ensures old(fileName).Some? && !createOk ==>
        r == CreateFailed(TargetName(old(fileName).value)) && saved == old(saved)
    {
      if fileName.None? {
        return Unnamed;
      }
      var name := fileName.value;
      var target := name;
      if EndsWith(name, ".xlsx") || EndsWith(name, ".xls") || EndsWith(name, ".ods") {
        var pos := LastIndexOf(name, '.');
        if pos >= 0 {
          target := name[..pos] + ".csv";
        } else {
          target := name + ".csv";
        }
        fileName := Some(target);
      }
      if !createOk {
        return CreateFailed(target);
      }
      var lines := Serialized();
      saved := true;
      return Written(target, lines);
    }

    /** The loops of `save`: for each row from 1 to `num_rows`, the texts of
        the cells on that row in table order, each without its last
        character and followed by a comma, then the final comma dropped. */
    method Serialized() returns (lines: seq<string>)
      ensures lines == SavedLines(table.cells, NumRowsOf(table.cells))
    {
      var nRows := table.NumRows();
      var cells := table.cells;
      lines := [];
      var line: string := "";
      for i := 1 to nRows + 1
        invariant lines == SavedLines(cells, i - 1)
        invariant line == ""
      {
        for j := 0 to |cells|
          invariant line == RowAcc("", cells[..j], i)
        {
          assert cells[..j + 1][..j] == cells[..j];
          var cell := cells[j];
          if i == cell.yLoc {
            line := line + cell.contents;
            line := DropLast(line);
            line := line + ",";
          }
        }
        assert cells[..|cells|] == cells;
        line := DropLast(line);
        lines := lines + [line];
        line := "";
      }
    }
  }

  /** Every mutator of the document keeps coordinates 1-based and distinct:
      the selections, `insert`, `delete`, the overwrites of `paste` and
      `undo`, and both kinds of growth. */
  lemma MutatorsKeepPlaces(cells: seq<Cell>, at: Position, s: string, es: seq<Cell>, measure: Measure)
    requires WellPlaced(cells)
    ensures WellPlaced(Highlighted(cells, at)) && WellPlaced(MultiHighlighted(cells, at))
    ensures WellPlaced(Inserted(cells, at, s, measure)) && WellPlaced(Deleted(cells))
    ensures WellPlaced(Overwritten(cells, es, measure))
    ensures WellPlaced(GrownRow(cells, at, measure)) && WellPlaced(GrownCol(cells, at, measure))
  {
    HighlightedCells(cells, at);
    SamePlacesKeepShape(cells, Highlighted(cells, at));
    MultiHighlightedCells(cells, at);
    SamePlacesKeepShape(cells, MultiHighlighted(cells, at));
    InsertedCells(cells, at, s, measure);
    SamePlacesKeepShape(cells, Inserted(cells, at, s, measure));
    DeletedCells(cells);
    SamePlacesKeepShape(cells, Deleted(cells));
    OverwrittenPlaces(cells, es, measure);
    SamePlacesKeepShape(cells, Overwritten(cells, es, measure));
    GrownRowKeepsPlaces(cells, at, measure);
    GrownColKeepsPlaces(cells, at, measure);
  }

  /** The index of the entry `paste` compares entry `k` with: the previous
      one, or the first entry itself for `k == 0`. */
  function Previous(k: nat): nat
  {
    if k == 0 then 0 else k - 1
  }

  /** Where `paste`'s cursor stands once the entries `done` are placed: at the
      last of them, or at the start before any. */
  function Cursor(start: Position, done: seq<Cell>): Position
  {
    if done == [] then start else Place(done[|done| - 1])
  }

  /** The cursor step of `paste`'s loop: one column right when the entry lies
      right of the previous entry, else one row down when it lies below it. */
  method Advance(x: nat, y: nat, prevX: nat, prevY: nat, ghost prev: Cell, cell: Cell) returns (x': nat, y': nat)
    requires prev.xLoc == prevX && prev.yLoc == prevY
    ensures Position(x', y') == StepTarget(Position(x, y), prev, cell)
  {
    x', y' := x, y;
    if cell.xLoc > prevX {
      x' := x + 1;
    } else if cell.yLoc > prevY {
      y' := y + 1;
    }
  }

  /** The paste cursor after entry `k` takes one `StepTarget` from its place
      after the entries before `k`, measured against the previous entry. */
  lemma ReanchoredStep(start: Position, clip: seq<Cell>, k: nat, pos: Position, prev: Cell)
    requires k < |clip|
    requires pos == Cursor(start, Reanchored(start, clip[..k])) && prev == clip[Previous(k)]
    ensures
      var t := StepTarget(pos, prev, clip[k]);
      Reanchored(start, clip[..k + 1]) == Reanchored(start, clip[..k]) + [clip[k].(xLoc := t.x, yLoc := t.y)]
  {
    assert clip[..k + 1][..k] == clip[..k];
    assert clip[..k + 1][k] == clip[k];
    if k > 0 {
      assert clip[..k + 1][k - 1] == clip[k - 1];
    } else {
      assert clip[..k + 1][0] == clip[0];
    }
  }

  /** Writing one more entry: the overwritten table takes one more insert
      and the undo record one more snapshot. */
  lemma OverwrittenStep(cells: seq<Cell>, es: seq<Cell>, e: Cell, measure: Measure)
    ensures Overwritten(cells, es + [e], measure) == Inserted(Overwritten(cells, es, measure), Place(e), e.contents, measure)
    ensures Snapshots(cells, es + [e], measure) ==
      Snapshots(cells, es, measure) + [e.(contents := ContentAt(Overwritten(cells, es, measure), Place(e)))]
  {
    assert (es + [e])[..|es|] == es;
  }
}
