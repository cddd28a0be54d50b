/** The result workbook (main.py, class `Excel`). The fields hold what the
    saved file holds: the cells of the active sheet, the fill of each count
    cell (by row number) and the column widths (by column number). Each
    operation is one `while True` loop of load, compute, save, whose I/O fates
    come in as `Cycle`s: a `PermissionError` waits and retries, any other
    exception gives up with `False`, and a save that goes through ends the
    loop with `True`. */
module Workbook {
  import opened Wrappers
  import opened Strings
  import opened Extractor
  import opened Retry
  import opened Sheet
  import opened Formatting

  /** A row `edit_table` appended. */
  ghost predicate Written(row: seq<Cell>)
  {
    exists index: string, address: string, v: Verdict :: row == ResultRow(index, address, v)
  }

  /** The shape of the sheet between operations: row 1 holds at most the C1
      summary, row 2 the header, every later row one address's result. */
  ghost predicate WellFormed(rows: seq<seq<Cell>>)
  {
    && |rows| >= 2
    && (forall col :: col != 3 ==> CellOf(rows[0], col) == Blank)
    && rows[1] == Header
    && forall r :: 2 <= r < |rows| ==> Written(rows[r])
  }

  /** Every result row's count cell has a fill, the one its count calls for,
      and no other row has one. */
  ghost predicate Filled(rows: seq<seq<Cell>>, fills: map<nat, string>)
  {
    && (forall r :: 3 <= r <= |rows| ==> r in fills)
    && (forall r :: r in fills ==> 3 <= r <= |rows| && CellOf(rows[r - 1], 3).Number? && fills[r] == FillFor(CellOf(rows[r - 1], 3).n))
  }

  /** Appending a result row with its fill keeps the fills in step. */
  lemma FilledAppend(rows: seq<seq<Cell>>, fills: map<nat, string>, index: string, address: string, v: Verdict)
    requires Filled(rows, fills) && |rows| >= 2
    ensures Filled(rows + [ResultRow(index, address, v)], fills[|rows| + 1 := FillFor(ResultRow(index, address, v)[2].n)])
    ensures FillFor(ResultRow(index, address, v)[2].n) == RattedFill <==> v.Ratted? && |v.reports| > 0
  {
    var row := ResultRow(index, address, v);
    var after := rows + [row];
    assert forall i :: 0 <= i < |rows| ==> after[i] == rows[i];
    assert CellOf(after[|rows|], 3) == row[2];
  }

  /** Appending a result row with its fill keeps a valid sheet valid. */
  lemma AppendKeepsValid(rows: seq<seq<Cell>>, fills: map<nat, string>, index: string, address: string, v: Verdict)
    requires WellFormed(rows) && Filled(rows, fills)
    ensures WellFormed(rows + [ResultRow(index, address, v)])
    ensures Filled(rows + [ResultRow(index, address, v)], fills[|rows| + 1 := FillFor(ResultRow(index, address, v)[2].n)])
    ensures FillFor(ResultRow(index, address, v)[2].n) == RattedFill <==> v.Ratted? && |v.reports| > 0
  {
    var row := ResultRow(index, address, v);
    var written := rows + [row];
    assert Written(row);
    assert forall r :: 2 <= r < |rows| ==> written[r] == rows[r];
    FilledAppend(rows, fills, index, address, v);
  }

  /** The last row of a well-formed sheet holds a written cell. */
  lemma LastRowWritten(rows: seq<seq<Cell>>)
    requires WellFormed(rows)
    ensures !IsBlankRow(rows[|rows| - 1])
  {
    var last := rows[|rows| - 1];
    if |rows| > 2 {
      assert Written(last);
      var index, address, v :| last == ResultRow(index, address, v);
    }
    assert last[0] != Blank;
  }

  /** Writing C1 keeps the fills in step. */
  lemma FilledSummary(rows: seq<seq<Cell>>, fills: map<nat, string>, k: nat)
    requires Filled(rows, fills) && rows != []
    ensures Filled(WithC1(rows, Text(Summary(k))), fills)
  {
    var after := WithC1(rows, Text(Summary(k)));
    assert forall i :: 1 <= i < |rows| ==> after[i] == rows[i];
  }

  /** The count cell of a result row is positive exactly for an address with reports. */
  lemma ResultRowRatted(index: string, address: string, v: Verdict)
    ensures IsRatted(ResultRow(index, address, v)) <==> v.Ratted? && |v.reports| > 0
  {
  }

  /** Every cell of a well-formed sheet from column 4 on can be measured. */
  lemma CellMeasurable(rows: seq<seq<Cell>>, r: nat, col: nat)
    requires WellFormed(rows) && r < |rows| && 4 <= col
    ensures CellWidth(CellOf(rows[r], col)).Some?
  {
    if r == 0 || col > |rows[r]| {
      assert CellOf(rows[r], col) == Blank;
      BlankWidth();
    } else if r == 1 {
      assert CellOf(rows[r], col) == Text("Reports data");
      NotContainsWithoutHead("Reports data", HyperlinkTag);
      CellWidthSpec(Text("Reports data"));
    } else {
      assert Written(rows[r]);
      var index, address, v :| rows[r] == ResultRow(index, address, v);
      var k := col - 4;
      assert CellOf(rows[r], col) == Text(HyperlinkFormula(v.reports[k]));
      HyperlinkMeasurable(v.reports[k]);
    }
  }

  /** Every row of a well-formed sheet measures up to any last column. */
  lemma RowMeasurableAt(rows: seq<seq<Cell>>, r: nat, maxCol: nat)
    requires WellFormed(rows) && r < |rows|
    ensures RowMeasurable(rows[r], maxCol)
  {
    forall col | 4 <= col <= maxCol ensures CellWidth(CellOf(rows[r], col)).Some? {
      CellMeasurable(rows, r, col);
    }
    RowWidthsSpec(rows[r], maxCol);
  }

  /** On a well-formed sheet the width pass of `final_formatting` never raises. */
  lemma WellFormedMeasurable(rows: seq<seq<Cell>>)
    requires WellFormed(rows)
    ensures Measurable(rows)
  {
    var rect := Rect(rows);
    forall i | 0 <= i < |rect| ensures RowMeasurable(rect[i], MaxCol(rows)) {
      RectRow(rows, i);
      RowMeasurableAt(rows, MinRow(rows) + i, MaxCol(rows));
    }
  }

  /** Lines 113-114 of main.py: every measured width replaces the column's
      width, the other columns keep theirs. */
  method ApplyWidths(widths: map<nat, nat>, maxLengths: map<nat, nat>) returns (r: map<nat, nat>)
    ensures r == widths + maxLengths
  {
    r := widths;
    var todo := maxLengths.Keys;
    while todo != {}
      invariant todo <= maxLengths.Keys
      invariant r == widths + map col | col in maxLengths && col !in todo :: maxLengths[col]
      decreases todo
    {
      var col :| col in todo;
      r := r[col := maxLengths[col]];
      todo := todo - {col};
    }
    assert maxLengths == map col | col in maxLengths && col !in todo :: maxLengths[col];
  }

  /** Writing C1 keeps a valid sheet valid. */
  lemma SummaryKeepsValid(rows: seq<seq<Cell>>, fills: map<nat, string>, k: nat)
    ensures WellFormed(rows) && Filled(rows, fills) ==>
      WellFormed(WithC1(rows, Text(Summary(k)))) && Filled(WithC1(rows, Text(Summary(k))), fills)
  {
    SummaryKeepsShape(rows, k);
    if WellFormed(rows) && Filled(rows, fills) {
      FilledSummary(rows, fills, k);
    }
  }

  /** Writing C1 keeps a sheet well formed. */
  lemma SummaryKeepsShape(rows: seq<seq<Cell>>, k: nat)
    ensures WellFormed(rows) ==> WellFormed(WithC1(rows, Text(Summary(k))))
  {
    var summarised := WithC1(rows, Text(Summary(k)));
    assert forall r :: 2 <= r < |rows| ==> summarised[r] == rows[r];
  }

  /** Lines 95-116 of main.py, the in-memory part of one cycle of
      `final_formatting`: the sheet with the count in C1 and the widths with
      every measured column set; `ok == false` where a split raises. */
  method Format(rows: seq<seq<Cell>>, widths: map<nat, nat>) returns (ok: bool, summarised: seq<seq<Cell>>, sized: map<nat, nat>)
    ensures ok == Measurable(rows)
    ensures ok ==> summarised == WithC1(rows, Text(Summary(RattedCount(Rect(rows)))))
    ensures ok ==> sized == widths + Widths(Rect(rows), MaxCol(rows))
  {
    var ratted, maxLengths;
    ok, ratted, maxLengths := Tally(rows);
    if !ok {
      return false, rows, widths;
    }
    summarised := WithC1(rows, Text(Summary(ratted)));
    sized := ApplyWidths(widths, maxLengths);
  }

  /** The final pass leaves the widths of columns A, B and C as they were:
      it only measures columns from D on. */
  lemma KeepsFixedWidths(widths: map<nat, nat>, rows: seq<seq<Cell>>)
    requires Measurable(rows)
    ensures forall col :: col < 4 && col in widths ==>
      col in widths + Widths(Rect(rows), MaxCol(rows)) && (widths + Widths(Rect(rows), MaxCol(rows)))[col] == widths[col]
  {
  }

  /** Columns A, B and C have the widths `Excel.__init__` gives them. */
  predicate HasFixedWidths(widths: map<nat, nat>)
  {
    1 in widths && 2 in widths && 3 in widths && widths[1] == 10 && widths[2] == 46 && widths[3] == 24
  }

  /** The widths the final pass sets leave columns A, B and C as they were. */
  lemma FixedWidthsKept(widths: map<nat, nat>, rows: seq<seq<Cell>>)
    requires HasFixedWidths(widths) && Measurable(rows)
    ensures HasFixedWidths(widths + Widths(Rect(rows), MaxCol(rows)))
  {
    KeepsFixedWidths(widths, rows);
  }

  class Excel {
    var rows: seq<seq<Cell>>
    var fills: map<nat, string>
    var widths: map<nat, nat>

    ghost predicate Valid()
      reads this
    {
      WellFormed(rows) && Filled(rows, fills)
    }

    /** The new workbook: the header in row 2 and the fixed widths of
        columns A, B and C. */
    constructor ()
      ensures Valid()
      ensures rows == [[], Header] && fills == map[]
      ensures widths == map[1 := 10, 2 := 46, 3 := 24]
    {
      rows := [[], Header];
      fills := map[];
      widths := map[1 := 10, 2 := 46, 3 := 24];
    }

    /** `edit_table`: appends the row of one address and colours its count
        cell red for a positive count, green otherwise. It returns `True`
        exactly when the first cycle that does not hit a `PermissionError`
        loads and saves; only then does the file change. */
    method EditTable(index: string, address: string, result: Verdict, cycles: seq<Cycle>) returns (ok: bool)
      requires Valid()
      requires exists k :: 0 <= k < |cycles| && Settles(cycles[k], Storable(ResultRow(index, address, result)))
      modifies this
      ensures Valid()
      ensures ok == Succeeds(cycles, Storable(ResultRow(index, address, result)))
      ensures ok ==> Storable(ResultRow(index, address, result))
      ensures ok ==> rows == old(rows) + [ResultRow(index, address, result)]
      ensures ok ==> fills == old(fills)[|rows| := FillFor(ResultRow(index, address, result)[2].n)]
      ensures ok ==> (fills[|rows|] == RattedFill <==> result.Ratted? && |result.reports| > 0)
      ensures !ok ==> rows == old(rows) && fills == old(fills)
      ensures widths == old(widths)
    {
      ghost var computeOk := Storable(ResultRow(index, address, result));
      var last := FirstSettling(cycles, computeOk);
      var i := 0;
      // the sheet and fills as the one save that goes through leaves them
      var written, filled := rows, fills;
      ok := false;
      while true
        invariant i <= last && !ok
        decreases last - i
      {
        var c := cycles[i];
        if c.load == Denied {
          i := i + 1;
          continue;
        }
        if c.load == Broken {
          break;
        }
        var row := ResultRow(index, address, result);
        if !Storable(row) {
          // `sheet.append` raises `IllegalCharacterError`
          break;
        }
        var appended := rows + [row];
        var rowFilled := fills[|appended| := FillFor(row[2].n)];
        if c.save == Denied {
          i := i + 1;
          continue;
        }
        if c.save == Broken {
          break;
        }
        written, filled, ok := appended, rowFilled, true;
        break;
      }
      if ok {
        AppendKeepsValid(rows, fills, index, address, result);
        rows, fills := written, filled;
      }
    }

    /** `final_formatting`: writes the number of ratted addresses to C1 and
        sets the width of every measured column. It returns `True` exactly
        when the first cycle that does not hit a `PermissionError` loads,
        measures every cell and saves; only then does the file change. */
    method FinalFormatting(cycles: seq<Cycle>) returns (ok: bool)
      requires exists k :: 0 <= k < |cycles| && Settles(cycles[k], Measurable(rows))
      modifies this
      ensures ok == Succeeds(cycles, old(Measurable(rows)))
      ensures ok ==> old(Measurable(rows))
      ensures ok ==> rows == WithC1(old(rows), Text(Summary(RattedCount(Rect(old(rows))))))
      ensures ok ==> widths == old(widths) + Widths(Rect(old(rows)), MaxCol(old(rows)))
      ensures !ok ==> rows == old(rows) && widths == old(widths)
      ensures fills == old(fills)
      ensures old(Valid()) ==> Valid()
    {
      ghost var computeOk := Measurable(rows);
      var last := FirstSettling(cycles, computeOk);
      var i := 0;
      // the sheet and widths as the one save that goes through leaves them
      var summarised, sized := rows, widths;
      ok := false;
      while true
        invariant i <= last && !ok
        invariant rows == old(rows) && fills == old(fills) && widths == old(widths)
        decreases last - i
      {
        var c := cycles[i];
        if c.load == Denied {
          i := i + 1;
          continue;
        }
        if c.load == Broken {
          SucceedsIff(cycles, computeOk, i);
          break;
        }
        var measured, withC1, measuredWidths := Format(rows, widths);
        if !measured {
          SucceedsIff(cycles, computeOk, i);
          break;
        }
        if c.save == Denied {
          i := i + 1;
          continue;
        }
        SucceedsIff(cycles, computeOk, i);
        if c.save == Broken {
          break;
        }
        summarised, sized, ok := withC1, measuredWidths, true;
        break;
      }
      if ok {
        SummaryKeepsValid(rows, fills, RattedCount(Rect(rows)));
        rows, widths := summarised, sized;
      }
    }
  }

  /** On a valid workbook the final pass cannot fail on a cell: whether it
      succeeds depends on the I/O cycles alone. */
  lemma FinalFormattingOnValid(excel: Excel, cycles: seq<Cycle>)
    requires excel.Valid()
    ensures Measurable(excel.rows)
    ensures (exists k :: 0 <= k < |cycles| && Settles(cycles[k], true)) ==>
      Succeeds(cycles, Measurable(excel.rows)) == Persists(cycles[FirstSettling(cycles, true)], true)
  {
    WellFormedMeasurable(excel.rows);
  }
}
