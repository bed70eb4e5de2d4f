/** What `save` writes (src/document.rs:343-380): the name of the file it
    writes to, and the text of each row. */
module Persist {
  import opened Text
  import opened Cells
  import opened Tables
  import opened Edits

  /** A spreadsheet name is one that `open` reads through a workbook reader. */
  predicate IsSpreadsheet(name: string)
  {
    EndsWith(name, ".xlsx") || EndsWith(name, ".xls") || EndsWith(name, ".ods")
  }

  /** The file `save` writes: a spreadsheet name loses everything from its
      last '.' and gains ".csv"; any other name is kept. */
  function TargetName(name: string): string
  {
    if IsSpreadsheet(name) then
      var pos := LastIndexOf(name, '.');
      if pos >= 0 then name[..pos] + ".csv" else name + ".csv"
    else name
  }

  /** The row text `save` accumulates over the cells of `cells` on row `i`,
      starting from `acc`: each cell's text loses its last character and is
      followed by a comma. */
  function RowAcc(acc: string, cells: seq<Cell>, i: nat): string
  {
    if cells == [] then acc
    else
      var c := cells[|cells| - 1];
      var line := RowAcc(acc, cells[..|cells| - 1], i);
      if c.yLoc == i then DropLast(line + c.contents) + "," else line
  }

  /** Row `i` as written: the accumulated text without its final comma. */
  function RowLine(cells: seq<Cell>, i: nat): string
  {
    DropLast(RowAcc("", cells, i))
  }

  /** The lines `save` writes for rows 1 to `n`: line `i` is row `i + 1`. */
  function SavedLines(cells: seq<Cell>, n: nat): (r: seq<string>)
    ensures |r| == n
    ensures forall i :: 0 <= i < n ==> r[i] == RowLine(cells, i + 1)
  {
    if n == 0 then [] else SavedLines(cells, n - 1) + [RowLine(cells, n)]
  }

  /** The texts of the cells on row `i`, in table order, each without its
      last character: the fields `save` means to write for that row. */
  function RowTexts(cells: seq<Cell>, i: nat): seq<string>
  {
    if cells == [] then []
    else
      var c := cells[|cells| - 1];
      RowTexts(cells[..|cells| - 1], i) + (if c.yLoc == i then [DropLast(c.contents)] else [])
  }

  /** Every cell on row `i` holds some text. */
  predicate FilledRow(cells: seq<Cell>, i: nat)
  {
    forall k :: 0 <= k < |cells| && cells[k].yLoc == i ==> cells[k].contents != []
  }

  /** The bytes of the file: every line followed by a newline. */
  function FileText(lines: seq<string>): string
  {
    if lines == [] then [] else lines[0] + "\n" + FileText(lines[1..])
  }

  // ----- Target name -----

  /** A spreadsheet name is remapped by replacing its extension with ".csv";
      every other name is kept. */
  lemma TargetNameReplacesExtension(name: string)
    ensures EndsWith(name, ".xlsx") ==> TargetName(name) == name[..|name| - 5] + ".csv"
    ensures EndsWith(name, ".xls") ==> TargetName(name) == name[..|name| - 4] + ".csv"
    ensures EndsWith(name, ".ods") ==> TargetName(name) == name[..|name| - 4] + ".csv"
    ensures !IsSpreadsheet(name) ==> TargetName(name) == name
  {
    if EndsWith(name, ".xlsx") {
      RemappedAtExtension(name, ".xlsx");
    }
    if EndsWith(name, ".xls") {
      RemappedAtExtension(name, ".xls");
    }
    if EndsWith(name, ".ods") {
      RemappedAtExtension(name, ".ods");
    }
  }

  lemma RemappedAtExtension(name: string, ext: string)
    requires ext == ".xlsx" || ext == ".xls" || ext == ".ods"
    requires EndsWith(name, ext)
    ensures TargetName(name) == name[..|name| - |ext|] + ".csv"
  {
    assert IsSpreadsheet(name);
    assert '.' !in ext[1..] by {
      assert ext[1..] == "xlsx" || ext[1..] == "xls" || ext[1..] == "ods";
    }
    ExtensionDot(name, ext);
  }

  /** The last '.' of a name ending in an extension is the extension's own. */
  lemma ExtensionDot(name: string, ext: string)
    requires EndsWith(name, ext) && ext != [] && ext[0] == '.' && '.' !in ext[1..]
    ensures LastIndexOf(name, '.') == |name| - |ext|
  {
    var k := |name| - |ext|;
    assert name[k] == ext[0];
    forall i | k < i < |name| ensures name[i] != '.' {
      assert name[i] == ext[1..][i - k - 1];
    }
    LastIndexOfAt(name, '.', k);
  }

  lemma LastIndexOfAt(s: string, c: char, k: nat)
    requires k < |s| && s[k] == c
    requires forall i :: k < i < |s| ==> s[i] != c
    ensures LastIndexOf(s, c) == k
  {
  }

  /** Remapping is idempotent: once a name is remapped, later saves keep it. */
  lemma TargetNameIdempotent(name: string)
    ensures IsSpreadsheet(name) ==> EndsWith(TargetName(name), ".csv")
    ensures TargetName(TargetName(name)) == TargetName(name)
  {
    TargetNameReplacesExtension(name);
    if EndsWith(name, ".xlsx") {
      CsvName(name[..|name| - 5]);
    } else if EndsWith(name, ".xls") || EndsWith(name, ".ods") {
      CsvName(name[..|name| - 4]);
    }
  }

  /** A name ending in ".csv" is not a spreadsheet name. */
  lemma CsvName(prefix: string)
    ensures EndsWith(prefix + ".csv", ".csv")
    ensures !IsSpreadsheet(prefix + ".csv")
  {
    var t := prefix + ".csv";
    assert t[|t| - 4..] == ".csv";
    assert t[|t| - 4..][3] == 'v';
    if |t| >= 5 {
      assert t[|t| - 5..][4] == 'v';
    }
    TargetNameReplacesExtension(t);
  }

  // ----- Rows -----

  lemma {:induction false} RowAccConcat(acc: string, a: seq<Cell>, b: seq<Cell>, i: nat)
    ensures RowAcc(acc, a + b, i) == RowAcc(RowAcc(acc, a, i), b, i)
  {
    if b == [] {
      assert a + b == a;
    } else {
      var init := b[..|b| - 1];
      RowAccConcat(acc, a, init, i);
      assert (a + b)[..|a + b| - 1] == a + init;
      assert (a + b)[|a + b| - 1] == b[|b| - 1];
    }
  }

  /** Cells on other rows add nothing to row `i`. */
  lemma {:induction false} RowAccSkips(acc: string, cells: seq<Cell>, i: nat)
    requires forall k :: 0 <= k < |cells| ==> cells[k].yLoc != i
    ensures RowAcc(acc, cells, i) == acc
  {
    if cells != [] {
      RowAccSkips(acc, cells[..|cells| - 1], i);
    }
  }

  lemma DropSpace(s: string)
    ensures DropLast(s + " ") == s
  {
    assert (s + " ")[..|s|] == s;
  }

  /** The cells `Table::from` makes for one line give back each field
      followed by a comma: the appended space is exactly what `save` pops. */
  lemma {:induction false} RowAccOfRow(acc: string, fields: seq<string>, i: nat, measure: Measure)
    ensures RowAcc(acc, RowCells(fields, i, measure), i) == acc + Terminated(fields)
  {
    if fields != [] {
      var init, f := fields[..|fields| - 1], fields[|fields| - 1];
      RowAccOfRow(acc, init, i, measure);
      RowCellsAccStep(acc, fields, i, measure);
      DropSpace(acc + Terminated(init) + f);
    }
  }

  /** The last field's cell adds its text, less the appended space, and a comma. */
  lemma RowCellsAccStep(acc: string, fields: seq<string>, i: nat, measure: Measure)
    requires fields != []
    ensures
      var init, f := fields[..|fields| - 1], fields[|fields| - 1];
      && RowAcc(acc, RowCells(fields, i, measure), i) == DropLast(RowAcc(acc, RowCells(init, i, measure), i) + (f + " ")) + ","
      && Terminated(fields) == Terminated(init) + f + ","
      && RowAcc(acc, RowCells(init, i, measure), i) + (f + " ") == RowAcc(acc, RowCells(init, i, measure), i) + f + " "
  {
    var init := fields[..|fields| - 1];
    var row := RowCells(fields, i, measure);
    assert row[..|row| - 1] == RowCells(init, i, measure);
  }

  /** Row `i` of a table read from `lines` accumulates to line `i`'s fields,
      each followed by a comma. */
  lemma {:induction false} RowAccOfParsed(lines: seq<string>, i: nat, measure: Measure)
    requires 1 <= i <= |lines|
    ensures RowAcc("", ParsedCells(lines, measure), i) == Terminated(Fields(lines[i - 1]))
  {
    var n := |lines|;
    var init := lines[..n - 1];
    var a := ParsedCells(init, measure);
    var b := RowCells(Fields(lines[n - 1]), n, measure);
    RowAccConcat("", a, b, i);
    if i == n {
      assert RowAcc("", a, i) == "" by {
        ParsedCellsContent(init, measure);
        forall k | 0 <= k < |a| ensures a[k].yLoc != i {
          assert ParsedFrom(init, a[k], measure);
        }
        RowAccSkips("", a, i);
      }
      RowAccOfRow("", Fields(lines[n - 1]), n, measure);
    } else {
      RowAccSkips(RowAcc("", a, i), b, i);
      RowAccOfParsed(init, i, measure);
      assert init[i - 1] == lines[i - 1];
    }
  }

  /** Saving a table read from `lines` writes `lines` back, one per row:
      `save` inverts the comma split of `Table::from`. */
  lemma {:induction false} SavedLinesOfParsed(lines: seq<string>, measure: Measure)
    ensures SavedLines(ParsedCells(lines, measure), NumRowsOf(ParsedCells(lines, measure))) == lines
  {
    ParsedCellsRows(lines, measure);
    SavedLinesUpTo(lines, |lines|, measure);
    assert lines[..|lines|] == lines;
  }

  lemma {:induction false} SavedLinesUpTo(lines: seq<string>, n: nat, measure: Measure)
    requires n <= |lines|
    ensures SavedLines(ParsedCells(lines, measure), n) == lines[..n]
  {
    if n > 0 {
      var cells := ParsedCells(lines, measure);
      SavedLinesUpTo(lines, n - 1, measure);
      assert RowLine(cells, n) == lines[n - 1] by {
        RowAccOfParsed(lines, n, measure);
        JoinFields(lines[n - 1]);
      }
      assert SavedLines(cells, n) == SavedLines(cells, n - 1) + [RowLine(cells, n)];
      assert lines[..n] == lines[..n - 1] + [lines[n - 1]];
    }
  }

  /** Reading back a written file gives the written lines, provided no line
      holds a newline or ends in a carriage return (which `str::lines` would
      strip). */
  lemma {:induction false} LinesOfFileText(lines: seq<string>)
    requires forall k :: 0 <= k < |lines| ==> '\n' !in lines[k] && !EndsWith(lines[k], "\r")
    ensures Lines(FileText(lines)) == lines
  {
    if lines != [] {
      var l := lines[0];
      var rest := FileText(lines[1..]);
      LinesOfFileText(lines[1..]);
      LineBreakAt(l, rest);
      NoTrailingCR(l);
      assert lines == [l] + lines[1..];
    }
  }

  /** The first newline of a written line and what follows it is the one
      `save` wrote after it. */
  lemma LineBreakAt(l: string, rest: string)
    requires '\n' !in l
    ensures Lines(l + "\n" + rest) == [StripCR(l)] + Lines(rest)
  {
    var t := l + "\n" + rest;
    assert t[|l|] == '\n';
    forall k | 0 <= k < |l| ensures t[k] != '\n' {
      assert t[k] == l[k];
    }
    IndexOfAt(t, '\n', |l|);
    assert t[..|l|] == l;
    assert t[|l| + 1..] == rest;
  }

  lemma NoTrailingCR(l: string)
    requires !EndsWith(l, "\r")
    ensures StripCR(l) == l
  {
    if l != [] {
      assert l[|l| - 1..] == [l[|l| - 1]];
    }
  }

  lemma IndexOfAt(s: string, c: char, k: nat)
    requires k < |s| && s[k] == c
    requires forall i :: 0 <= i < k ==> s[i] != c
    ensures IndexOf(s, c) == k
  {
  }

  /** Open, save, open again: the file `save` writes for a table read from
      `text` reads back as the same cells, when no line of `text` ends in a
      carriage return that `str::lines` left in place. */
  lemma SaveThenOpen(text: string, measure: Measure)
    requires forall k :: 0 <= k < |Lines(text)| ==> !EndsWith(Lines(text)[k], "\r")
    ensures
      var cells := ParsedCells(Lines(text), measure);
      ParsedCells(Lines(FileText(SavedLines(cells, NumRowsOf(cells)))), measure) == cells
  {
    SavedLinesOfParsed(Lines(text), measure);
    LinesOfFileText(Lines(text));
  }

  // ----- Rows of an edited table -----

  lemma DropLastAppend(a: string, b: string)
    requires b != []
    ensures DropLast(a + b) == a + DropLast(b)
  {
    assert (a + b)[..|a + b| - 1] == a + b[..|b| - 1];
  }

  /** When every cell on row `i` holds some text, `save` accumulates exactly
      those texts, each without its last character and followed by a comma. */
  lemma {:induction false} RowAccOfTexts(acc: string, cells: seq<Cell>, i: nat)
    requires FilledRow(cells, i)
    ensures RowAcc(acc, cells, i) == acc + Terminated(RowTexts(cells, i))
  {
    if cells != [] {
      var init, c := cells[..|cells| - 1], cells[|cells| - 1];
      assert FilledRow(init, i) by {
        assert forall k :: 0 <= k < |init| ==> init[k] == cells[k];
      }
      RowAccOfTexts(acc, init, i);
      if c.yLoc == i {
        var ts := RowTexts(init, i);
        DropLastAppend(acc + Terminated(ts), c.contents);
        assert (ts + [DropLast(c.contents)])[..|ts|] == ts;
      } else {
        assert RowTexts(cells, i) == RowTexts(init, i);
      }
    }
  }

  /** When every cell on row `i` holds some text, the line `save` writes for
      that row is the cells' texts in table order, each without its last
      character, joined by commas. */
  lemma RowLineOfTexts(cells: seq<Cell>, i: nat)
    requires FilledRow(cells, i)
    ensures RowLine(cells, i) == Join(RowTexts(cells, i))
  {
    RowAccOfTexts("", cells, i);
  }

  /** Cells after the first `m` rows do not change the lines of those rows. */
  lemma {:induction false} SavedLinesIgnore(cells: seq<Cell>, extra: seq<Cell>, m: nat)
    requires forall k :: 0 <= k < |extra| ==> extra[k].yLoc > m
    ensures SavedLines(cells + extra, m) == SavedLines(cells, m)
  {
    if m > 0 {
      SavedLinesIgnore(cells, extra, m - 1);
      RowAccConcat("", cells, extra, m);
      RowAccSkips(RowAcc("", cells, m), extra, m);
    }
  }

  /** Saving a table read from `lines` after cells were added on the row
      below it writes `lines` and then the new row's line. */
  lemma SaveGrownParsed(lines: seq<string>, extra: seq<Cell>, measure: Measure)
    requires extra != []
    requires forall k :: 0 <= k < |extra| ==> extra[k].yLoc == |lines| + 1
    ensures
      var g := ParsedCells(lines, measure) + extra;
      NumRowsOf(g) == |lines| + 1 && SavedLines(g, NumRowsOf(g)) == lines + [RowLine(extra, |lines| + 1)]
  {
    var cells := ParsedCells(lines, measure);
    var n := |lines|;
    ParsedCellsRows(lines, measure);
    NumRowsOfBounds(cells);
    NumRowsOfBounds(extra);
    ExtentOfConcat(cells, extra);
    SavedLinesIgnore(cells, extra, n);
    SavedLinesOfParsed(lines, measure);
    RowAccConcat("", cells, extra, n + 1);
    RowAccSkips("", cells, n + 1);
  }

  /** `n` empty fields. */
  function EmptyFields(n: nat): (r: seq<string>)
    ensures |r| == n && forall i :: 0 <= i < n ==> r[i] == ""
  {
    if n == 0 then [] else EmptyFields(n - 1) + [""]
  }

  /** `n` empty fields joined by commas: nothing but commas. */
  lemma {:induction false} TerminatedEmpty(n: nat)
    ensures forall k :: 0 <= k < |Terminated(EmptyFields(n))| ==> Terminated(EmptyFields(n))[k] == ','
  {
    if n > 0 {
      TerminatedEmpty(n - 1);
      assert EmptyFields(n)[..n - 1] == EmptyFields(n - 1);
    }
  }

  lemma JoinEmptyIsCommas(n: nat)
    ensures '\n' !in Join(EmptyFields(n)) && !EndsWith(Join(EmptyFields(n)), "\r")
  {
    var t := Terminated(EmptyFields(n));
    var j := Join(EmptyFields(n));
    TerminatedEmpty(n);
    assert forall k :: 0 <= k < |j| ==> j[k] == t[k];
    if |j| >= 1 {
      assert j[|j| - 1..][0] == j[|j| - 1];
    }
  }

  /** A row of `" "` filler cells is saved as one empty field per column. */
  lemma {:induction false} BlankRowTexts(y: nat, cols: nat, measure: Measure)
    ensures FilledRow(FillerRow(" ", y, cols, measure), y)
    ensures RowTexts(FillerRow(" ", y, cols, measure), y) == EmptyFields(cols)
  {
    if cols > 0 {
      var r := FillerRow(" ", y, cols, measure);
      BlankRowTexts(y, cols - 1, measure);
      assert r[..cols - 1] == FillerRow(" ", y, cols - 1, measure);
    }
  }

  /** As written, a row of "" cells accumulates to a single comma: each empty
      text makes `pop` take away the comma before it. */
  lemma {:induction false} NewRowAcc(y: nat, cols: nat, measure: Measure)
    requires cols >= 1
    ensures RowAcc("", NewRow(y, cols, measure), y) == ","
  {
    var r := NewRow(y, cols, measure);
    assert r[..cols - 1] == NewRow(y, cols - 1, measure);
    if cols > 1 {
      NewRowAcc(y, cols - 1, measure);
    }
  }

  /** Reading `n` empty fields back gives a row of `" "` filler cells. */
  lemma ReopenedBlankRow(y: nat, cols: nat, measure: Measure)
    requires cols >= 1
    ensures RowCells(Fields(Join(EmptyFields(cols))), y, measure) == FillerRow(" ", y, cols, measure)
  {
    FieldsOfJoin(EmptyFields(cols));
    var a := RowCells(EmptyFields(cols), y, measure);
    var b := FillerRow(" ", y, cols, measure);
    forall i | 0 <= i < cols ensures a[i] == b[i] {
      assert "" + " " == " ";
    }
  }

  /** A table read from text has at least one column once it has a line. */
  lemma ParsedHasColumns(lines: seq<string>, measure: Measure)
    requires lines != []
    ensures NumColsOf(ParsedCells(lines, measure)) >= 1
  {
    var cells := ParsedCells(lines, measure);
    ParsedCellsRows(lines, measure);
    ParsedCellsWellPlaced(lines, measure);
    NumColsOfBounds(cells);
    assert cells[0].xLoc >= 1;
  }

  /** Reading back a file of `lines` and one more line `last` gives the
      table of `lines` with `last`'s cells on the row below. */
  lemma ReopenWithLine(lines: seq<string>, last: string, measure: Measure)
    requires forall k :: 0 <= k < |lines| ==> '\n' !in lines[k] && !EndsWith(lines[k], "\r")
    requires '\n' !in last && !EndsWith(last, "\r")
    ensures ParsedCells(Lines(FileText(lines + [last])), measure) ==
      ParsedCells(lines, measure) + RowCells(Fields(last), |lines| + 1, measure)
  {
    var written := lines + [last];
    WrittenLines(lines, last);
    ParsedCellsAppend(written, |lines|, measure);
    assert written[..|lines| + 1] == written && written[..|lines|] == lines;
  }

  lemma WrittenLines(lines: seq<string>, last: string)
    requires forall k :: 0 <= k < |lines| ==> '\n' !in lines[k] && !EndsWith(lines[k], "\r")
    requires '\n' !in last && !EndsWith(last, "\r")
    ensures Lines(FileText(lines + [last])) == lines + [last]
  {
    var written := lines + [last];
    forall k | 0 <= k < |written| ensures '\n' !in written[k] && !EndsWith(written[k], "\r") {
      if k < |lines| {
        assert written[k] == lines[k];
      }
    }
    LinesOfFileText(written);
  }

  /** Open, grow a row with the " " filler, save, open again: the reopened
      table is the grown table, cell for cell. */
  lemma GrowSaveOpen(text: string, measure: Measure)
    requires forall k :: 0 <= k < |Lines(text)| ==> !EndsWith(Lines(text)[k], "\r")
    ensures
      var cells := ParsedCells(Lines(text), measure);
      var g := cells + FillerRow(" ", NumRowsOf(cells) + 1, NumColsOf(cells), measure);
      ParsedCells(Lines(FileText(SavedLines(g, NumRowsOf(g)))), measure) == g
  {
    var lines := Lines(text);
    var cells := ParsedCells(lines, measure);
    ParsedCellsRows(lines, measure);
    if lines != [] {
      var n, cols := |lines|, NumColsOf(cells);
      ParsedHasColumns(lines, measure);
      var extra := FillerRow(" ", n + 1, cols, measure);
      var g := cells + extra;
      var last := Join(EmptyFields(cols));
      assert SavedLines(g, NumRowsOf(g)) == lines + [last] by {
        SaveGrownParsed(lines, extra, measure);
        BlankRowTexts(n + 1, cols, measure);
        RowLineOfTexts(extra, n + 1);
      }
      JoinEmptyIsCommas(cols);
      ReopenWithLine(lines, last, measure);
      ReopenedBlankRow(n + 1, cols, measure);
    }
  }

  /** An empty line holds one empty field. */
  lemma FieldsOfEmpty()
    ensures Fields("") == [""]
  {
    FieldsOfJoin([""]);
    assert Join([""]) == "" by {
      assert [""][..0] == [];
    }
  }

  /** As written, a table read from `lines` and grown by a row of "" cells
      is saved as `lines` and one empty line. */
  lemma SaveGrownAsWritten(lines: seq<string>, cols: nat, measure: Measure)
    requires cols >= 1
    ensures
      var g := ParsedCells(lines, measure) + NewRow(|lines| + 1, cols, measure);
      SavedLines(g, NumRowsOf(g)) == lines + [""]
  {
    var extra := NewRow(|lines| + 1, cols, measure);
    forall k | 0 <= k < |extra| ensures extra[k].yLoc == |lines| + 1 {
      assert extra[k] == Cell("", measure(""), k + 1, |lines| + 1, false);
    }
    SaveGrownParsed(lines, extra, measure);
    NewRowAcc(|lines| + 1, cols, measure);
    assert DropLast(",") == "";
  }

  /** As written, `insert_newrow` fills the new row with "" and `save` writes
      it as an empty line, which reads back as a single cell: a table with at
      least two columns does not survive grow, save and open. */
  lemma GrowSaveOpenAsWritten(text: string, measure: Measure)
    requires forall k :: 0 <= k < |Lines(text)| ==> !EndsWith(Lines(text)[k], "\r")
    requires NumColsOf(ParsedCells(Lines(text), measure)) >= 2
    ensures
      var cells := ParsedCells(Lines(text), measure);
      var g := cells + NewRow(NumRowsOf(cells) + 1, NumColsOf(cells), measure);
      var reopened := ParsedCells(Lines(FileText(SavedLines(g, NumRowsOf(g)))), measure);
      reopened == cells + [Cell(" ", measure(" "), 1, NumRowsOf(cells) + 1, false)] && |reopened| < |g|
  {
    ParsedCellsRows(Lines(text), measure);
    ShrinksAsWritten(Lines(text), measure);
  }

  /** `GrowSaveOpenAsWritten` for the lines of the text. */
  lemma ShrinksAsWritten(lines: seq<string>, measure: Measure)
    requires forall k :: 0 <= k < |lines| ==> '\n' !in lines[k] && !EndsWith(lines[k], "\r")
    requires NumColsOf(ParsedCells(lines, measure)) >= 2
    ensures
      var cells := ParsedCells(lines, measure);
      var g := cells + NewRow(|lines| + 1, NumColsOf(cells), measure);
      var reopened := ParsedCells(Lines(FileText(SavedLines(g, NumRowsOf(g)))), measure);
      reopened == cells + [Cell(" ", measure(" "), 1, |lines| + 1, false)] && |reopened| < |g|
  {
    var cells := ParsedCells(lines, measure);
    var n := NumColsOf(cells);
    ReopenGrownAsWritten(lines, measure);
    assert |NewRow(|lines| + 1, n, measure)| == n;
  }

  /** As written, the file saved for a table read from `lines` and grown by
      a row of "" cells reads back with a single " " cell on that row. */
  lemma ReopenGrownAsWritten(lines: seq<string>, measure: Measure)
    requires forall k :: 0 <= k < |lines| ==> '\n' !in lines[k] && !EndsWith(lines[k], "\r")
    requires NumColsOf(ParsedCells(lines, measure)) >= 1
    ensures
      var cells := ParsedCells(lines, measure);
      var g := cells + NewRow(|lines| + 1, NumColsOf(cells), measure);
      ParsedCells(Lines(FileText(SavedLines(g, NumRowsOf(g)))), measure) ==
        cells + [Cell(" ", measure(" "), 1, |lines| + 1, false)]
  {
    var cells := ParsedCells(lines, measure);
    var g := cells + NewRow(|lines| + 1, NumColsOf(cells), measure);
    assert SavedLines(g, NumRowsOf(g)) == lines + [""] by {
      SaveGrownAsWritten(lines, NumColsOf(cells), measure);
    }
    assert RowCells(Fields(""), |lines| + 1, measure) == [Cell(" ", measure(" "), 1, |lines| + 1, false)] by {
      FieldsOfEmpty();
      assert "" + " " == " ";
    }
    ReopenWithLine(lines, "", measure);
  }

  /** As written, a grown row of three columns in which only the third was
      filled (the editor appends a space to what is typed) is saved as ",z":
      the two empty texts leave one comma, and `z` reads back in column 2. */
  lemma EditedGrownRowShifts(measure: Measure)
    ensures
      var row := Inserted(NewRow(5, 3, measure), Position(3, 5), "z ", measure);
      RowLine(row, 5) == ",z" && Fields(RowLine(row, 5)) == ["", "z"]
  {
    var row := Inserted(NewRow(5, 3, measure), Position(3, 5), "z ", measure);
    EditedRowCells(measure);
    EditedRowAcc(row, measure);
    assert DropLast(",z,") == ",z";
    FieldsOfCommaZ();
  }

  lemma EditedRowCells(measure: Measure)
    ensures
      var row := Inserted(NewRow(5, 3, measure), Position(3, 5), "z ", measure);
      row[..2] == NewRow(5, 2, measure) && row[2] == Cell("z ", measure("z "), 3, 5, false) && |row| == 3
  {
    var base := NewRow(5, 3, measure);
    InsertedCells(base, Position(3, 5), "z ", measure);
    assert base[..2] == NewRow(5, 2, measure);
  }

  lemma EditedRowAcc(row: seq<Cell>, measure: Measure)
    requires |row| == 3 && row[..2] == NewRow(5, 2, measure) && row[2] == Cell("z ", measure("z "), 3, 5, false)
    ensures RowAcc("", row, 5) == ",z,"
  {
    NewRowAcc(5, 2, measure);
    assert DropLast("," + "z ") == ",z";
  }

  lemma FieldsOfCommaZ()
    ensures Fields(",z") == ["", "z"]
  {
    assert Join(["", "z"]) == ",z" by {
      assert ["", "z"][..1] == [""];
      assert [""][..0] == [];
    }
    FieldsOfJoin(["", "z"]);
  }
}
