/** Grid coordinates and cells (src/table.rs:5-55, src/editor.rs:14-19). */
module Cells {
  import opened Text

  /** A focus or cell coordinate: column `x`, row `y`. Stored cells use 1-based
      coordinates; the focus may sit at 0 ("before the first") for one key press. */
  datatype Position = Position(x: nat, y: nat)

  /** The terminal display width of a text. The editor obtains it from a Unicode
      width library; here it is a parameter of the table. */
  type Measure = string -> nat

  /** One cell: its text, its cached width, its coordinate and its selection flag. */
  datatype Cell = Cell(contents: string, width: nat, xLoc: nat, yLoc: nat, highlighted: bool)

  predicate At(c: Cell, p: Position)
  {
    c.xLoc == p.x && c.yLoc == p.y
  }

  function Place(c: Cell): Position
  {
    Position(c.xLoc, c.yLoc)
  }

  /** `Cell::from`: the width comes from the display measure, the coordinate is
      (0, 0) until the caller places the cell, and it starts unselected. */
  function FromText(s: string, measure: Measure): Cell
  {
    Cell(s, measure(s), 0, 0, false)
  }

  /** `Cell::from` followed by setting `x_loc` and `y_loc`. */
  function PlacedText(s: string, measure: Measure, x: nat, y: nat): Cell
  {
    FromText(s, measure).(xLoc := x, yLoc := y)
  }

  /** `edit_content`: new text, and a width recomputed as the text's UTF-8 byte
      length (not its display width); coordinate and selection are kept. */
  function EditContent(c: Cell, s: string): (r: Cell)
    ensures r.contents == s && r.width == Utf8Len(s) && r.width >= |s|
    ensures Place(r) == Place(c) && r.highlighted == c.highlighted
  {
    Utf8LenAtLeastLength(s);
    c.(contents := s, width := Utf8Len(s))
  }

  /** `highlight` and `unhighlight` only touch the flag. */
  function Highlight(c: Cell): Cell
  {
    c.(highlighted := true)
  }

  function Unhighlight(c: Cell): Cell
  {
    c.(highlighted := false)
  }
}
