/** The walk of `Excel.final_formatting` (main.py) over the sheet: rows
    `min_row..max_row`, columns `3..max_column`. Column 3 is counted (an int
    greater than 0 makes the address "ratted"); every later column keeps the
    largest measured length of its cells in the `max_lengths` dict. The
    reference definitions (RattedCount, ColumnWidth, Widths) say what the walk
    must produce; TallyRow and Tally are the walk itself. */
module Formatting {
  import opened Wrappers
  import opened Sheet

  /** `type(cell.value) == int and int(cell.value) > 0` for the column-3 cell. */
  predicate IsRatted(row: seq<Cell>)
  {
    CellOf(row, 3).Number? && CellOf(row, 3).n > 0
  }

  /** How many rows have a positive integer in column 3. */
  function RattedCount(rect: seq<seq<Cell>>): (k: nat)
    ensures k <= |rect|
  {
    if rect == [] then 0
    else
      RattedCount(rect[..|rect| - 1]) + (if IsRatted(rect[|rect| - 1]) then 1 else 0)
  }

  /** The count is zero exactly when no row is ratted. */
  lemma {:induction false} RattedCountZero(rect: seq<seq<Cell>>)
    ensures RattedCount(rect) == 0 <==> forall i :: 0 <= i < |rect| ==> !IsRatted(rect[i])
  {
    if rect != [] {
      var init := rect[..|rect| - 1];
      RattedCountZero(init);
      assert forall i :: 0 <= i < |init| ==> init[i] == rect[i];
    }
  }

  /** Counting distributes over a split of the rows. */
  lemma {:induction false} RattedCountAppend(a: seq<seq<Cell>>, b: seq<seq<Cell>>)
    ensures RattedCount(a + b) == RattedCount(a) + RattedCount(b)
  {
    if b != [] {
      var init := b[..|b| - 1];
      assert (a + b)[..|a + b| - 1] == a + init;
      RattedCountAppend(a, init);
    } else {
      assert a + b == a;
    }
  }

  /** The width of column `col` over the rows: the largest measured length,
      0 over no rows, None if some cell cannot be measured. */
  function ColumnWidth(rect: seq<seq<Cell>>, col: nat): (w: Option<nat>)
    ensures w.Some? <==> forall i :: 0 <= i < |rect| ==> CellWidth(CellOf(rect[i], col)).Some?
    ensures w.Some? ==> forall i :: 0 <= i < |rect| ==> CellWidth(CellOf(rect[i], col)).value <= w.value
  {
    if rect == [] then Some(0)
    else
      var init := rect[..|rect| - 1];
      assert forall i :: 0 <= i < |init| ==> init[i] == rect[i];
      var a := ColumnWidth(init, col);
      var b := CellWidth(CellOf(rect[|rect| - 1], col));
      if a.None? || b.None? then None
      else Some(if a.value < b.value then b.value else a.value)
  }

  /** Over at least one row, the width of a column is the length of one of its cells. */
  lemma {:induction false} ColumnWidthAttained(rect: seq<seq<Cell>>, col: nat)
    requires rect != [] && ColumnWidth(rect, col).Some?
    ensures exists i :: 0 <= i < |rect| && CellWidth(CellOf(rect[i], col)) == ColumnWidth(rect, col)
  {
    var init := rect[..|rect| - 1];
    var b := CellWidth(CellOf(rect[|rect| - 1], col));
    if init != [] && ColumnWidth(init, col).value >= b.value {
      ColumnWidthAttained(init, col);
      var i :| 0 <= i < |init| && CellWidth(CellOf(init[i], col)) == ColumnWidth(init, col);
      assert init[i] == rect[i];
    } else {
      assert CellWidth(CellOf(rect[|rect| - 1], col)) == ColumnWidth(rect, col);
    }
  }

  /** The measured lengths of a row's cells in columns 4 to `m`, in column
      order; None if one of them cannot be measured. */
  function RowWidths(row: seq<Cell>, m: nat): (ws: Option<seq<nat>>)
    ensures ws.Some? ==> |ws.value| == if m < 4 then 0 else m - 3
  {
    if m < 4 then Some([])
    else
      match RowWidths(row, m - 1)
      case None => None
      case Some(ws) =>
        match CellWidth(CellOf(row, m))
        case None => None
        case Some(w) => Some(ws + [w])
  }

  /** RowWidths measures every cell of columns 4 to `m`, each where it belongs. */
  lemma {:induction false} RowWidthsSpec(row: seq<Cell>, m: nat)
    ensures RowWidths(row, m).Some? <==> forall col :: 4 <= col <= m ==> CellWidth(CellOf(row, col)).Some?
    ensures RowWidths(row, m).Some? ==>
      forall col :: 4 <= col <= m ==> RowWidths(row, m).value[col - 4] == CellWidth(CellOf(row, col)).value
  {
    if m >= 4 {
      RowWidthsSpec(row, m - 1);
    }
  }

  /** One more measured column extends a row's lengths by that column's length. */
  lemma RowWidthsSnoc(row: seq<Cell>, m: nat, ws: seq<nat>, w: nat)
    requires m >= 4 && RowWidths(row, m - 1) == Some(ws) && CellWidth(CellOf(row, m)) == Some(w)
    ensures RowWidths(row, m) == Some(ws + [w])
  {
  }

  /** Every cell of a row that the walk measures can be measured. */
  predicate RowMeasurable(row: seq<Cell>, maxCol: nat)
  {
    RowWidths(row, maxCol).Some?
  }

  predicate RectMeasurable(rect: seq<seq<Cell>>, maxCol: nat)
  {
    forall i :: 0 <= i < |rect| ==> RowMeasurable(rect[i], maxCol)
  }

  /** The walk over the whole sheet raises nowhere. */
  predicate Measurable(rows: seq<seq<Cell>>)
  {
    RectMeasurable(Rect(rows), MaxCol(rows))
  }

  /** On measurable rows, every column from 4 to `maxCol` has a width. */
  lemma ColumnsMeasurable(rect: seq<seq<Cell>>, maxCol: nat)
    requires RectMeasurable(rect, maxCol)
    ensures forall col :: 4 <= col <= maxCol ==> ColumnWidth(rect, col).Some?
  {
    forall i | 0 <= i < |rect| ensures forall col :: 4 <= col <= maxCol ==> CellWidth(CellOf(rect[i], col)).Some? {
      RowWidthsSpec(rect[i], maxCol);
    }
  }

  /** The `max_lengths` dict the walk should end with, keyed by column number:
      no entry over no rows, otherwise one per column from 4 to `maxCol`. */
  function Widths(rect: seq<seq<Cell>>, maxCol: nat): (m: map<nat, nat>)
    requires RectMeasurable(rect, maxCol)
    ensures rect == [] ==> m == map[]
    ensures rect != [] ==> forall col :: col in m <==> 4 <= col <= maxCol
    ensures forall col :: col in m ==> Some(m[col]) == ColumnWidth(rect, col)
  {
    if rect == [] then map[]
    else
      ColumnsMeasurable(rect, maxCol);
      map col: nat | 4 <= col <= maxCol :: ColumnWidth(rect, col).value
  }

  /** What `max_lengths[col]` becomes at a cell of length `len`: the larger of
      its old value (0 when absent) and `len`. */
  function Wider(acc: map<nat, nat>, col: nat, len: nat): (v: nat)
    ensures v >= len && (col in acc ==> v >= acc[col])
    ensures v == len || (col in acc && v == acc[col])
  {
    var prev := if col in acc then acc[col] else 0;
    if len > prev then len else prev
  }

  /** The entry of column `col` once the length measured there, `ws[col - 4]`, is kept. */
  function WiderAt(acc: map<nat, nat>, ws: seq<nat>, col: nat): nat
    requires 4 <= col < 4 + |ws|
  {
    Wider(acc, col, ws[col - 4])
  }

  /** `max_lengths` after the walk over a row whose columns 4, 5, ... measure `ws`. */
  function Widen(acc: map<nat, nat>, ws: seq<nat>): (m: map<nat, nat>)
    ensures forall col :: col in m <==> col in acc || 4 <= col < 4 + |ws|
    ensures forall col :: 4 <= col < 4 + |ws| ==> m[col] == Wider(acc, col, ws[col - 4])
    ensures forall col :: col in acc && !(4 <= col < 4 + |ws|) ==> m[col] == acc[col]
  {
    acc + map col: nat | 4 <= col < 4 + |ws| :: WiderAt(acc, ws, col)
  }

  /** Widening by one more length updates that one column, whose previous
      entry is still the one from before the row. */
  lemma WidenStep(acc: map<nat, nat>, ws: seq<nat>, w: nat)
    ensures Widen(acc, ws + [w]) == Widen(acc, ws)[4 + |ws| := Wider(Widen(acc, ws), 4 + |ws|, w)]
  {
    var col := 4 + |ws|;
    var a := Widen(acc, ws + [w]);
    var c := Widen(acc, ws);
    var b := c[col := Wider(c, col, w)];
    assert (col in c) == (col in acc) && (col in c ==> c[col] == acc[col]);
    forall k | k in a ensures k in b && a[k] == b[k] {
      if k != col && 4 <= k < col {
        assert (ws + [w])[k - 4] == ws[k - 4];
      }
    }
    assert a.Keys == b.Keys;
  }

  /** The rows but the last still measure. */
  lemma InitMeasurable(rect: seq<seq<Cell>>, maxCol: nat)
    requires rect != [] && RectMeasurable(rect, maxCol)
    ensures RectMeasurable(rect[..|rect| - 1], maxCol)
  {
    var init := rect[..|rect| - 1];
    assert forall i :: 0 <= i < |init| ==> init[i] == rect[i];
  }

  /** One column of WidthsStep. */
  lemma ColumnStep(rect: seq<seq<Cell>>, maxCol: nat, col: nat)
    requires rect != [] && RectMeasurable(rect, maxCol) && 4 <= col <= maxCol
    requires RectMeasurable(rect[..|rect| - 1], maxCol)
    ensures Widths(rect, maxCol)[col] ==
      Wider(Widths(rect[..|rect| - 1], maxCol), col, RowWidths(rect[|rect| - 1], maxCol).value[col - 4])
  {
    var init := rect[..|rect| - 1];
    var w := Widths(init, maxCol);
    RowWidthsSpec(rect[|rect| - 1], maxCol);
    assert Some(Widths(rect, maxCol)[col]) == ColumnWidth(rect, col);
    if init == [] {
      assert ColumnWidth(init, col) == Some(0);
    } else {
      assert Some(w[col]) == ColumnWidth(init, col);
    }
  }

  /** The widths over one more row have the keys of the old widths widened by that row. */
  lemma KeysStep(rect: seq<seq<Cell>>, maxCol: nat)
    requires rect != [] && RectMeasurable(rect, maxCol) && RectMeasurable(rect[..|rect| - 1], maxCol)
    ensures Widths(rect, maxCol).Keys == Widen(Widths(rect[..|rect| - 1], maxCol), RowWidths(rect[|rect| - 1], maxCol).value).Keys
  {
    var w := Widths(rect[..|rect| - 1], maxCol);
    var ws := RowWidths(rect[|rect| - 1], maxCol).value;
    assert |ws| == if maxCol < 4 then 0 else maxCol - 3;
    assert forall col :: col in w ==> 4 <= col <= maxCol;
  }

  /** Two maps with the same keys and the same value at each key are equal. */
  lemma SameMap(a: map<nat, nat>, b: map<nat, nat>)
    requires a.Keys == b.Keys && forall col :: col in a ==> a[col] == b[col]
    ensures a == b
  {
  }

  /** The widths over one more row are the old widths widened by that row. */
  lemma WidthsStep(rect: seq<seq<Cell>>, maxCol: nat)
    requires rect != [] && RectMeasurable(rect, maxCol)
    ensures RectMeasurable(rect[..|rect| - 1], maxCol)
    ensures Widths(rect, maxCol) == Widen(Widths(rect[..|rect| - 1], maxCol), RowWidths(rect[|rect| - 1], maxCol).value)
  {
    InitMeasurable(rect, maxCol);
    var a := Widths(rect, maxCol);
    var b := Widen(Widths(rect[..|rect| - 1], maxCol), RowWidths(rect[|rect| - 1], maxCol).value);
    KeysStep(rect, maxCol);
    forall col | col in a ensures a[col] == b[col] {
      ColumnStep(rect, maxCol, col);
    }
    SameMap(a, b);
  }

  /** One more row of the walk: it still measures, is counted once if ratted,
      and widens the widths. */
  lemma TallyStep(rect: seq<seq<Cell>>, i: nat, maxCol: nat)
    requires i < |rect| && RectMeasurable(rect[..i], maxCol) && RowMeasurable(rect[i], maxCol)
    ensures RectMeasurable(rect[..i + 1], maxCol)
    ensures RattedCount(rect[..i + 1]) == RattedCount(rect[..i]) + if IsRatted(rect[i]) then 1 else 0
    ensures Widths(rect[..i + 1], maxCol) == Widen(Widths(rect[..i], maxCol), RowWidths(rect[i], maxCol).value)
  {
    var next := rect[..i + 1];
    assert next[..i] == rect[..i] && next[i] == rect[i];
    assert RectMeasurable(next, maxCol);
    WidthsStep(next, maxCol);
  }

  /** Every row of the walk fits in `max_column` columns. */
  lemma RectFits(rows: seq<seq<Cell>>)
    ensures forall i :: 0 <= i < |Rect(rows)| ==> RowLen(Rect(rows)[i]) <= MaxCol(rows)
  {
    var rect := Rect(rows);
    forall i | 0 <= i < |rect| ensures RowLen(rect[i]) <= MaxCol(rows) {
      RectRow(rows, i);
    }
  }

  /** One row that cannot be measured makes the walk raise. */
  lemma RowBlocks(rect: seq<seq<Cell>>, i: nat, maxCol: nat)
    requires i < |rect| && !RowMeasurable(rect[i], maxCol)
    ensures !RectMeasurable(rect, maxCol)
  {
  }

  /** A cell of columns 4 to `maxCol` that cannot be measured makes the row unmeasurable. */
  lemma RowBlocked(row: seq<Cell>, col: nat, maxCol: nat)
    requires 4 <= col <= maxCol && CellWidth(CellOf(row, col)).None?
    ensures !RowMeasurable(row, maxCol)
  {
    RowWidthsSpec(row, maxCol);
  }

  /** Lines 106-111 of main.py at one measured cell: the column gets an entry
      (0) if it has none, then keeps the larger of that and `len`. */
  method KeepLonger(widths: map<nat, nat>, col: nat, len: nat) returns (r: map<nat, nat>)
    ensures r == widths[col := Wider(widths, col, len)]
  {
    r := widths;
    if col !in r {
      r := r[col := 0];
    }
    if len > r[col] {
      r := r[col := len];
    }
  }

  /** The inner loop over one row, columns `3..maxCol`: whether the row is
      ratted, and `max_lengths` after the row; `ok == false` where a hyperlink
      split raises. */
  method TallyRow(row: seq<Cell>, maxCol: nat, acc: map<nat, nat>) returns (ok: bool, ratted: bool, widths: map<nat, nat>)
    requires RowLen(row) <= maxCol
    ensures ok == RowMeasurable(row, maxCol)
    ensures ok ==> ratted == IsRatted(row) && widths == Widen(acc, RowWidths(row, maxCol).value)
  {
    if maxCol < 3 {
      // a row with no written cell in column 3 is not ratted
      RowLenSpec(row);
      assert CellOf(row, 3) == Blank;
    }
    ratted, widths := false, acc;
    ghost var ws: seq<nat> := [];
    var j := 3;
    while j <= maxCol
      invariant 3 <= j && (j <= maxCol + 1 || j == 3)
      invariant ratted == (j > 3 && IsRatted(row))
      invariant RowWidths(row, j - 1) == Some(ws)
      invariant widths == Widen(acc, ws)
    {
      if j == 3 {
        var c := CellOf(row, 3);
        ratted := c.Number? && c.n > 0;
      } else {
        var w := CellWidth(CellOf(row, j));
        if w.None? {
          RowBlocked(row, j, maxCol);
          return false, ratted, widths;
        }
        RowWidthsSnoc(row, j, ws, w.value);
        WidenStep(acc, ws, w.value);
        widths := KeepLonger(widths, j, w.value);
        ws := ws + [w.value];
      }
      j := j + 1;
    }
    ok := true;
  }

  /** The outer loop over the walked rows, each at most `maxCol` cells long. */
  method Walk(rect: seq<seq<Cell>>, maxCol: nat) returns (ok: bool, ratted: nat, maxLengths: map<nat, nat>)
    requires forall i :: 0 <= i < |rect| ==> RowLen(rect[i]) <= maxCol
    ensures ok == RectMeasurable(rect, maxCol)
    ensures ok ==> ratted == RattedCount(rect) && maxLengths == Widths(rect, maxCol)
  {
    ratted, maxLengths := 0, map[];
    var i := 0;
    while i < |rect|
      invariant 0 <= i <= |rect|
      invariant RectMeasurable(rect[..i], maxCol)
      invariant ratted == RattedCount(rect[..i])
      invariant maxLengths == Widths(rect[..i], maxCol)
    {
      var rowOk, rowRatted, widened := TallyRow(rect[i], maxCol, maxLengths);
      if !rowOk {
        RowBlocks(rect, i, maxCol);
        return false, ratted, maxLengths;
      }
      TallyStep(rect, i, maxCol);
      assert widened == Widths(rect[..i + 1], maxCol);
      if rowRatted {
        ratted := ratted + 1;
      }
      maxLengths := widened;
      i := i + 1;
    }
    assert rect[..i] == rect;
    ok := true;
  }

  /** The walk over rows `min_row..max_row`: it counts the ratted rows and
      keeps, per column from 4 on, the largest measured length; it stops with
      `ok == false` where a hyperlink split raises. */
  method Tally(rows: seq<seq<Cell>>) returns (ok: bool, ratted: nat, maxLengths: map<nat, nat>)
    ensures ok == Measurable(rows)
    ensures ok ==> ratted == RattedCount(Rect(rows)) && maxLengths == Widths(Rect(rows), MaxCol(rows))
  {
    RectFits(rows);
    ok, ratted, maxLengths := Walk(Rect(rows), MaxCol(rows));
  }
}
