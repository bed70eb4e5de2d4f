/** Copy, paste and undo as values (src/document.rs:249-312): what the
    clipboard holds, where `paste` puts each clipboard entry, the cells it
    overwrites, the snapshot it records for `undo`, and what `undo` restores. */
module Clipboard {
  import opened Cells
  import opened Tables
  import opened Edits

  /** No two entries share a coordinate. */
  predicate DistinctPlaces(es: seq<Cell>)
  {
    forall i, j :: 0 <= i < j < |es| ==> Place(es[i]) != Place(es[j])
  }

  /** `copy` / `get_highlight_cells`: the selected cells, in table order. */
  function Selected(cells: seq<Cell>): (r: seq<Cell>)
    ensures |r| <= |cells|
    ensures forall i :: 0 <= i < |r| ==> r[i].highlighted
  {
    if cells == [] then []
    else
      var c := cells[|cells| - 1];
      Selected(cells[..|cells| - 1]) + (if c.highlighted then [c] else [])
  }

  /** The clipboard holds exactly the selected cells of the table. */
  lemma {:induction false} SelectedMembers(cells: seq<Cell>)
    ensures forall c :: c in Selected(cells) <==> c in cells && c.highlighted
  {
    if cells != [] {
      var init := cells[..|cells| - 1];
      SelectedMembers(init);
      assert cells == init + [cells[|cells| - 1]];
    }
  }

  /** Selection distributes over concatenation, so the clipboard keeps table order. */
  lemma {:induction false} SelectedConcat(a: seq<Cell>, b: seq<Cell>)
    ensures Selected(a + b) == Selected(a) + Selected(b)
  {
    if b != [] {
      var init, c := b[..|b| - 1], b[|b| - 1];
      assert (a + b)[..|a + b| - 1] == a + init;
      assert (a + b)[|a + b| - 1] == c;
      SelectedConcat(a, init);
    } else {
      assert a + b == a;
    }
  }

  /** A sub-sequence of a row-major ordered sequence is row-major ordered:
      copying from an ordered table gives an ordered clipboard. */
  lemma {:induction false} SelectedOrdered(cells: seq<Cell>)
    requires forall i, j :: 0 <= i < j < |cells| ==> Before(cells[i], cells[j])
    ensures forall i, j :: 0 <= i < j < |Selected(cells)| ==> Before(Selected(cells)[i], Selected(cells)[j])
  {
    if cells != [] {
      var init, c := cells[..|cells| - 1], cells[|cells| - 1];
      SelectedOrdered(init);
      SelectedMembers(init);
      var s := Selected(init);
      var r := Selected(cells);
      forall i, j | 0 <= i < j < |r| ensures Before(r[i], r[j]) {
        if j < |s| {
          assert r[i] == s[i] && r[j] == s[j];
        } else {
          assert r[i] == s[i] && r[i] in init && r[j] == c;
        }
      }
    }
  }

  /** After `highlight(at)` on a table whose coordinates are distinct, the
      clipboard `copy` returns is exactly the cell at `at`, now selected, or
      nothing when no cell is there. */
  lemma {:induction false} SelectedAfterHighlight(cells: seq<Cell>, at: Position)
    requires WellPlaced(cells)
    ensures Selected(Highlighted(cells, at)) ==
      if HasCell(cells, at) then [Highlight(cells[FirstAt(cells, at)])] else []
  {
    if cells != [] {
      var n := |cells|;
      var init, c := cells[..n - 1], cells[n - 1];
      assert WellPlaced(init) by {
        assert forall i :: 0 <= i < n - 1 ==> init[i] == cells[i];
      }
      SelectedAfterHighlight(init, at);
      var h := Highlighted(cells, at);
      assert h[..n - 1] == Highlighted(init, at);
      if At(c, at) {
        forall j | 0 <= j < n - 1 ensures !At(cells[j], at) {
          assert Place(cells[j]) != Place(cells[n - 1]);
        }
        FirstAtUnique(cells, at, n - 1);
        assert !HasCell(init, at);
      } else if HasCell(init, at) {
        FirstAtUnique(cells, at, FirstAt(init, at));
      } else {
        FirstAtUnique(cells, at, n);
      }
    }
  }

  // ----- paste -----

  /** `paste` moves a 0 coordinate of its start to 1. */
  function Clamped(at: Position): (r: Position)
    ensures r.x >= 1 && r.y >= 1
    ensures at.x == 0 ==> r.x == 1
    ensures at.y == 0 ==> r.y == 1
    ensures at.x >= 1 ==> r.x == at.x
    ensures at.y >= 1 ==> r.y == at.y
  {
    Position(if at.x == 0 then 1 else at.x, if at.y == 0 then 1 else at.y)
  }

  /** One step of `paste`'s cursor: one column right when the clipboard entry
      lies right of the previous one, else one row down when it lies below
      it, else no move. The column is not reset on a new row. */
  function StepTarget(pos: Position, prev: Cell, cur: Cell): (r: Position)
    ensures r == pos || r == Position(pos.x + 1, pos.y) || r == Position(pos.x, pos.y + 1)
    ensures cur.xLoc > prev.xLoc <==> r == Position(pos.x + 1, pos.y)
    ensures r == Position(pos.x, pos.y + 1) <==> cur.xLoc <= prev.xLoc && cur.yLoc > prev.yLoc
  {
    if cur.xLoc > prev.xLoc then Position(pos.x + 1, pos.y)
    else if cur.yLoc > prev.yLoc then Position(pos.x, pos.y + 1)
    else pos
  }

  /** Clipboard entry `clip[k]` moved to its paste target, keeping its text,
      width and flag: the cursor starts at `start` (with the first entry as
      its previous entry) and takes one `StepTarget` per entry. */
  function Reanchored(start: Position, clip: seq<Cell>): (r: seq<Cell>)
    ensures |r| == |clip|
    ensures clip != [] ==> Place(r[0]) == start
    ensures forall k :: 0 <= k < |r| ==>
      r[k].contents == clip[k].contents && r[k].width == clip[k].width && r[k].highlighted == clip[k].highlighted
    ensures forall k :: 1 <= k < |r| ==> Place(r[k]) == StepTarget(Place(r[k - 1]), clip[k - 1], clip[k])
  {
    if clip == [] then []
    else
      var n := |clip|;
      var r := Reanchored(start, clip[..n - 1]);
      var pos := if n == 1 then start else Place(r[n - 2]);
      var prev := if n == 1 then clip[0] else clip[n - 2];
      var t := StepTarget(pos, prev, clip[n - 1]);
      r + [clip[n - 1].(xLoc := t.x, yLoc := t.y)]
  }

  /** The table after inserting each entry's text at each entry's place, in order. */
  function Overwritten(cells: seq<Cell>, es: seq<Cell>, measure: Measure): (r: seq<Cell>)
    ensures |r| == |cells|
  {
    if es == [] then cells
    else
      var e := es[|es| - 1];
      Inserted(Overwritten(cells, es[..|es| - 1], measure), Place(e), e.contents, measure)
  }

  /** The undo record `paste` builds: each entry with the text found at its
      place just before that entry was written. */
  function Snapshots(cells: seq<Cell>, es: seq<Cell>, measure: Measure): (r: seq<Cell>)
    ensures |r| == |es|
  {
    if es == [] then []
    else
      var init := es[..|es| - 1];
      var e := es[|es| - 1];
      Snapshots(cells, init, measure) + [e.(contents := ContentAt(Overwritten(cells, init, measure), Place(e)))]
  }

  /** The index of the last entry placed at `p`, or -1. */
  function LastWrite(es: seq<Cell>, p: Position): (k: int)
    ensures -1 <= k < |es|
    ensures k >= 0 ==> At(es[k], p)
    ensures forall j :: k < j < |es| ==> !At(es[j], p)
  {
    if es == [] then -1
    else if At(es[|es| - 1], p) then |es| - 1
    else LastWrite(es[..|es| - 1], p)
  }

  // ----- Lemmas -----

  /** Inserting never moves, creates or removes a cell. */
  lemma {:induction false} OverwrittenPlaces(cells: seq<Cell>, es: seq<Cell>, measure: Measure)
    ensures SamePlaces(cells, Overwritten(cells, es, measure))
  {
    if es != [] {
      var init, e := es[..|es| - 1], es[|es| - 1];
      var o := Overwritten(cells, init, measure);
      OverwrittenPlaces(cells, init, measure);
      InsertedCells(o, Place(e), e.contents, measure);
    }
  }

  /** Each snapshot keeps its entry's place, width and flag; only the text is
      the one found in the table. */
  lemma {:induction false} SnapshotsPlaces(cells: seq<Cell>, es: seq<Cell>, measure: Measure)
    ensures forall k :: 0 <= k < |es| ==> Snapshots(cells, es, measure)[k] == es[k].(contents := Snapshots(cells, es, measure)[k].contents)
  {
    if es != [] {
      var init := es[..|es| - 1];
      SnapshotsPlaces(cells, init, measure);
      var r := Snapshots(cells, es, measure);
      var r' := Snapshots(cells, init, measure);
      assert r == r' + [r[|es| - 1]];
      forall k | 0 <= k < |init| ensures r[k] == es[k].(contents := r[k].contents) {
        assert r[k] == r'[k] && init[k] == es[k];
      }
    }
  }

  /** After a run of inserts, a coordinate with a cell reads the text of the
      last entry written there, if any; every other coordinate reads as before. */
  lemma {:induction false} OverwrittenContent(cells: seq<Cell>, es: seq<Cell>, measure: Measure, p: Position)
    ensures HasCell(Overwritten(cells, es, measure), p) == HasCell(cells, p)
    ensures ContentAt(Overwritten(cells, es, measure), p) ==
      if HasCell(cells, p) && LastWrite(es, p) >= 0 then es[LastWrite(es, p)].contents else ContentAt(cells, p)
  {
    var o := Overwritten(cells, es, measure);
    OverwrittenPlaces(cells, es, measure);
    SamePlacesLookup(cells, o, p);
    if es != [] {
      var init, e := es[..|es| - 1], es[|es| - 1];
      var o' := Overwritten(cells, init, measure);
      OverwrittenContent(cells, init, measure, p);
      OverwrittenContent(cells, init, measure, Place(e));
      ContentAfterInsert(o', Place(e), e.contents, measure, p);
    }
  }

  /** Inserting the same entries twice leaves every coordinate as once:
      pressing undo a second time repeats the first undo's writes. */
  lemma OverwrittenTwice(cells: seq<Cell>, es: seq<Cell>, measure: Measure, p: Position)
    ensures ContentAt(Overwritten(Overwritten(cells, es, measure), es, measure), p) ==
            ContentAt(Overwritten(cells, es, measure), p)
  {
    OverwrittenContent(cells, es, measure, p);
    OverwrittenContent(Overwritten(cells, es, measure), es, measure, p);
  }

  /** When the entries' places are distinct, each snapshot holds the text the
      table had at that place before the paste began. */
  lemma {:induction false} SnapshotsHoldOriginals(cells: seq<Cell>, es: seq<Cell>, measure: Measure)
    requires DistinctPlaces(es)
    ensures forall k :: 0 <= k < |es| ==>
      Snapshots(cells, es, measure)[k].contents == ContentAt(cells, Place(es[k]))
  {
    if es != [] {
      var init, e := es[..|es| - 1], es[|es| - 1];
      assert DistinctPlaces(init);
      SnapshotsHoldOriginals(cells, init, measure);
      OverwrittenContent(cells, init, measure, Place(e));
      forall j | 0 <= j < |init| ensures !At(init[j], Place(e)) {
        assert Place(es[j]) != Place(es[|es| - 1]);
      }
    }
  }

  lemma LastWriteSnapshots(cells: seq<Cell>, es: seq<Cell>, measure: Measure, p: Position)
    ensures LastWrite(Snapshots(cells, es, measure), p) == LastWrite(es, p)
  {
    var s := Snapshots(cells, es, measure);
    SnapshotsPlaces(cells, es, measure);
    var k := LastWrite(es, p);
    var ks := LastWrite(s, p);
    assert forall j :: 0 <= j < |es| ==> (At(s[j], p) <==> At(es[j], p));
    assert ks >= 0 ==> At(es[ks], p);
    assert k >= 0 ==> At(s[k], p);
  }

  /** Writing a paste's snapshots back over its result restores the text at
      every coordinate, provided the paste targets were distinct. */
  lemma UndoRestores(cells: seq<Cell>, es: seq<Cell>, measure: Measure, p: Position)
    requires DistinctPlaces(es)
    ensures ContentAt(Overwritten(Overwritten(cells, es, measure), Snapshots(cells, es, measure), measure), p)
         == ContentAt(cells, p)
  {
    var o := Overwritten(cells, es, measure);
    var s := Snapshots(cells, es, measure);
    OverwrittenContent(cells, es, measure, p);
    OverwrittenContent(o, s, measure, p);
    LastWriteSnapshots(cells, es, measure, p);
    SnapshotsHoldOriginals(cells, es, measure);
  }

  /** With a clipboard in strict row-major order, every cursor step moves
      right or down, so the targets come in strict row-major order too. */
  lemma {:induction false} ReanchoredOrdered(start: Position, clip: seq<Cell>)
    requires forall k :: 1 <= k < |clip| ==> Before(clip[k - 1], clip[k])
    ensures forall i, j :: 0 <= i < j < |clip| ==>
      Before(Reanchored(start, clip)[i], Reanchored(start, clip)[j])
  {
    if clip != [] {
      var n := |clip|;
      var init := clip[..n - 1];
      var r := Reanchored(start, clip);
      ReanchoredOrdered(start, init);
      var r' := Reanchored(start, init);
      assert forall k :: 0 <= k < n - 1 ==> r[k] == r'[k];
      if n >= 2 {
        assert Before(r[n - 2], r[n - 1]);
      }
      forall i, j | 0 <= i < j < n ensures Before(r[i], r[j]) {
        if j < n - 1 {
          assert Before(r'[i], r'[j]);
        } else if i < n - 2 {
          assert Before(r'[i], r'[n - 2]);
        }
      }
    }
  }

  /** Copy, paste anywhere, undo: on a table whose cells are in row-major
      order (as `Table::from` builds it), undoing a paste of the table's own
      selection restores the text at every coordinate. */
  lemma PasteThenUndo(cells: seq<Cell>, at: Position, measure: Measure, p: Position)
    requires forall i, j :: 0 <= i < j < |cells| ==> Before(cells[i], cells[j])
    ensures
      var es := Reanchored(Clamped(at), Selected(cells));
      ContentAt(Overwritten(Overwritten(cells, es, measure), Snapshots(cells, es, measure), measure), p)
        == ContentAt(cells, p)
  {
    var clip := Selected(cells);
    SelectedOrdered(cells);
    var es := Reanchored(Clamped(at), clip);
    ReanchoredOrdered(Clamped(at), clip);
    assert DistinctPlaces(es) by {
      forall i, j | 0 <= i < j < |es| ensures Place(es[i]) != Place(es[j]) {
        assert Before(es[i], es[j]);
      }
    }
    UndoRestores(cells, es, measure, p);
  }

  /** A clipboard from one row (a horizontal selection) is pasted along one
      row: entry k lands k columns right of the start. */
  lemma {:induction false} ReanchoredRow(start: Position, clip: seq<Cell>)
    requires forall k :: 1 <= k < |clip| ==> clip[k].yLoc == clip[0].yLoc && clip[k - 1].xLoc < clip[k].xLoc
    ensures forall k :: 0 <= k < |clip| ==> Place(Reanchored(start, clip)[k]) == Position(start.x + k, start.y)
  {
    if clip != [] {
      var init := clip[..|clip| - 1];
      ReanchoredRow(start, init);
      assert forall k :: 0 <= k < |init| ==> Reanchored(start, clip)[k] == Reanchored(start, init)[k];
    }
  }

  /** A clipboard from one column (a vertical selection) is pasted down one
      column: entry k lands k rows below the start. */
  lemma {:induction false} ReanchoredColumn(start: Position, clip: seq<Cell>)
    requires forall k :: 1 <= k < |clip| ==> clip[k].xLoc == clip[0].xLoc && clip[k - 1].yLoc < clip[k].yLoc
    ensures forall k :: 0 <= k < |clip| ==> Place(Reanchored(start, clip)[k]) == Position(start.x, start.y + k)
  {
    if clip != [] {
      var init := clip[..|clip| - 1];
      ReanchoredColumn(start, init);
      assert forall k :: 0 <= k < |init| ==> Reanchored(start, clip)[k] == Reanchored(start, init)[k];
    }
  }

  /** The selection written back over a delete restores the text at every
      coordinate of a table with distinct coordinates: cut or delete, then undo. */
  lemma DeleteThenUndo(cells: seq<Cell>, measure: Measure, p: Position)
    requires WellPlaced(cells)
    ensures ContentAt(Overwritten(Deleted(cells), Selected(cells), measure), p) == ContentAt(cells, p)
  {
    var d := Deleted(cells);
    var s := Selected(cells);
    OverwrittenContent(d, s, measure, p);
    ContentAfterDelete(cells, p);
    if HasCell(cells, p) {
      if cells[FirstAt(cells, p)].highlighted {
        SelectedReachesFocus(cells, p);
      }
      if LastWrite(s, p) >= 0 {
        SelectedWriteIsCell(cells, p);
      }
    }
  }

  /** A selected cell at `p` is in the selection, so the selection writes `p`. */
  lemma SelectedReachesFocus(cells: seq<Cell>, p: Position)
    requires HasCell(cells, p) && cells[FirstAt(cells, p)].highlighted
    ensures LastWrite(Selected(cells), p) >= 0
  {
    var s := Selected(cells);
    SelectedMembers(cells);
    assert cells[FirstAt(cells, p)] in s;
    var j :| 0 <= j < |s| && s[j] == cells[FirstAt(cells, p)];
    assert j <= LastWrite(s, p);
  }

  /** On a table with distinct coordinates, the selection's write at `p` is
      the table's own cell at `p`. */
  lemma SelectedWriteIsCell(cells: seq<Cell>, p: Position)
    requires WellPlaced(cells) && HasCell(cells, p) && LastWrite(Selected(cells), p) >= 0
    ensures Selected(cells)[LastWrite(Selected(cells), p)] == cells[FirstAt(cells, p)]
  {
    var s := Selected(cells);
    var k := LastWrite(s, p);
    SelectedMembers(cells);
    assert s[k] in s;
    var j :| 0 <= j < |cells| && cells[j] == s[k];
    assert Place(cells[j]) == p == Place(cells[FirstAt(cells, p)]);
  }
}
