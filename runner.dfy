/** `runner` (main.py): one `find_address` per address, all gathered, then
    one `final_formatting`. The tasks run concurrently; what reaches the
    sheet is decided by the order in which they take the workbook lock,
    which is an input here: any permutation of the tasks. */
module Runner {
  import opened Wrappers
  import opened Strings
  import opened Extractor
  import opened Retry
  import opened Sheet
  import opened Formatting
  import opened Workbook
  import opened Scanner
  import opened Completion

  /** The index string of the `i`-th (0-based) of `n` addresses, `[i+1/n]`. */
  function IndexLabel(i: nat, n: nat): string
  {
    "[" + NatToString(i + 1) + "/" + NatToString(n) + "]"
  }

  /** The numerator of `[a/b]` sits at positions 1 to |a|, the slash right after it. */
  lemma LabelParts(a: string, b: string)
    ensures var s := "[" + a + "/" + b + "]";
      |s| == |a| + |b| + 3 && s[1 + |a|] == '/' && forall k :: 1 <= k <= |a| ==> s[k] == a[k - 1]
  {
  }

  /** Different addresses of one run get different index strings. */
  lemma IndexLabelInjective(i: nat, j: nat, n: nat)
    ensures IndexLabel(i, n) == IndexLabel(j, n) <==> i == j
  {
    if IndexLabel(i, n) == IndexLabel(j, n) {
      var a, c, m := NatToString(i + 1), NatToString(j + 1), NatToString(n);
      var s := IndexLabel(i, n);
      LabelParts(a, m);
      LabelParts(c, m);
      assert forall k :: 1 <= k <= |a| ==> s[k] != '/';
      assert forall k :: 1 <= k <= |c| ==> s[k] != '/';
      assert |a| == |c|;
      assert a == s[1..1 + |a|] == c;
      NatToStringInjective(i + 1, j + 1);
    }
  }

  /** An index string holds only brackets, a slash and digits, all of which
      openpyxl accepts. */
  lemma LabelStorable(i: nat, n: nat)
    ensures StorableText(IndexLabel(i, n))
  {
    var a, b := NatToString(i + 1), NatToString(n);
    assert StorableText(a) && StorableText(b);
    StorableConcat("[", a);
    StorableConcat("[" + a, "/");
    StorableConcat("[" + a + "/", b);
    StorableConcat("[" + a + "/" + b, "]");
  }

  /** One address with everything the outside world answers for it: the
      pages its searches return and the I/O fates of its `edit_table`. */
  datatype Task = Task(address: string, responses: seq<Response>, cycles: seq<Cycle>)

  /** The row task `i` appends, under its index string. */
  function RowOf(tasks: seq<Task>, i: nat): seq<Cell>
    requires i < |tasks| && EventuallySettles(tasks[i].responses)
  {
    ResultRow(IndexLabel(i, |tasks|), tasks[i].address, ScanVerdict(tasks[i].responses))
  }

  /** Both loops of task `i` end: its scan, and the retry loop of its
      `edit_table`, which raises when the row holds text openpyxl refuses. */
  predicate Ends(tasks: seq<Task>, i: nat)
  {
    && i < |tasks|
    && EventuallySettles(tasks[i].responses)
    && exists k :: 0 <= k < |tasks[i].cycles| && Settles(tasks[i].cycles[k], Storable(RowOf(tasks, i)))
  }

  /** Task `i`'s row can be stored exactly when its address and the links
      and titles of its reports can: its index string always can. */
  lemma TaskRowStorable(tasks: seq<Task>, i: nat)
    requires i < |tasks| && EventuallySettles(tasks[i].responses)
    ensures Storable(RowOf(tasks, i)) <==> StorableText(tasks[i].address) && ReportsStorable(ScanVerdict(tasks[i].responses))
  {
    LabelStorable(i, |tasks|);
    ResultRowStorable(IndexLabel(i, |tasks|), tasks[i].address, ScanVerdict(tasks[i].responses));
  }

  predicate AllEnd(tasks: seq<Task>)
  {
    forall i :: 0 <= i < |tasks| ==> Ends(tasks, i)
  }

  /** Task `i`'s `edit_table` saves its row. */
  predicate Saved(tasks: seq<Task>, i: nat)
  {
    Ends(tasks, i) && Succeeds(tasks[i].cycles, Storable(RowOf(tasks, i)))
  }

  /** Task `i` saves a row with at least one report. */
  predicate SavedRatted(tasks: seq<Task>, i: nat)
  {
    Saved(tasks, i) && ScanVerdict(tasks[i].responses).Ratted? && |ScanVerdict(tasks[i].responses).reports| > 0
  }

  /** The tasks of `order` that save a row with reports. */
  function SavedRattedSet(tasks: seq<Task>, order: seq<nat>): set<nat>
  {
    set i | i in order && SavedRatted(tasks, i)
  }

  /** What each task hands to the sheet: its row when its save goes through. */
  function Outcomes(tasks: seq<Task>): (outs: seq<Option<seq<Cell>>>)
    requires AllEnd(tasks)
    ensures |outs| == |tasks|
  {
    seq(|tasks|, i requires 0 <= i < |tasks| => if Saved(tasks, i) then Some(RowOf(tasks, i)) else None)
  }

  /** Task `i` hands over a row labelled with task `j`'s index string exactly
      when it is task `j` and its save went through. */
  lemma CarriesLabel(tasks: seq<Task>, i: nat, j: nat)
    requires AllEnd(tasks) && i < |tasks| && j < |tasks|
    ensures Carries(Outcomes(tasks), i, IndexLabel(j, |tasks|)) <==> i == j && Saved(tasks, i)
  {
    IndexLabelInjective(i, j, |tasks|);
    if Saved(tasks, i) {
      assert Outcomes(tasks)[i] == Some(RowOf(tasks, i));
    }
  }

  /** The rows appended in a run: no row is lost and none is doubled. The
      row labelled with task `j`'s index string is in the sheet once if that
      task saved and not at all otherwise. */
  lemma NoLossNoDuplicate(tasks: seq<Task>, order: seq<nat>, j: nat)
    requires AllEnd(tasks) && Distinct(order, |tasks|) && j < |tasks|
    ensures LabelCount(Appended(Outcomes(tasks), order), IndexLabel(j, |tasks|)) ==
      if j in order && Saved(tasks, j) then 1 else 0
  {
    var outs := Outcomes(tasks);
    var tag := IndexLabel(j, |tasks|);
    AppendedLabels(outs, order, tag);
    var carriers := Carriers(outs, order, tag);
    forall i | i in carriers ensures i == j && Saved(tasks, j) {
      CarriesLabel(tasks, i, j);
    }
    if j in order && Saved(tasks, j) {
      CarriesLabel(tasks, j, j);
      assert carriers == {j};
    } else {
      assert carriers == {};
    }
  }

  /** The tasks of `order` whose save went through. */
  function SavedSet(tasks: seq<Task>, order: seq<nat>): set<nat>
  {
    set i | i in order && Saved(tasks, i)
  }

  /** The sheet body gains one row per saved task: as many rows as tasks of
      the order that saved, and over a whole completion order as many as
      addresses whose save went through. */
  lemma SavedRowCount(tasks: seq<Task>, order: seq<nat>)
    requires AllEnd(tasks) && Distinct(order, |tasks|)
    ensures |Appended(Outcomes(tasks), order)| == |SavedSet(tasks, order)|
    ensures IsOrder(order, |tasks|) ==>
      |Appended(Outcomes(tasks), order)| == |set i | 0 <= i < |tasks| && Saved(tasks, i)|
  {
    var outs := Outcomes(tasks);
    AppendedSize(outs, order);
    assert Handers(outs, order) == SavedSet(tasks, order);
    if IsOrder(order, |tasks|) {
      assert SavedSet(tasks, order) == set i | 0 <= i < |tasks| && Saved(tasks, i);
    }
  }

  /** `row` is the row of a task of `order` that saved. */
  predicate IsTaskRow(tasks: seq<Task>, order: seq<nat>, row: seq<Cell>)
  {
    exists j :: j in order && Saved(tasks, j) && row == RowOf(tasks, j)
  }

  /** Every appended row is the row of a task of the order that saved: its
      index string, its address and its verdict. */
  lemma RowsAreTaskRows(tasks: seq<Task>, order: seq<nat>)
    requires AllEnd(tasks) && InRange(order, |tasks|)
    ensures forall r :: 0 <= r < |Appended(Outcomes(tasks), order)| ==>
      IsTaskRow(tasks, order, Appended(Outcomes(tasks), order)[r])
  {
    var outs := Outcomes(tasks);
    var a := Appended(outs, order);
    AppendedFrom(outs, order);
    forall r | 0 <= r < |a| ensures IsTaskRow(tasks, order, a[r]) {
      var j :| j in order && j < |outs| && outs[j].Some? && a[r] == outs[j].value;
      assert outs[j] == if Saved(tasks, j) then Some(RowOf(tasks, j)) else None;
      assert Saved(tasks, j) && a[r] == RowOf(tasks, j);
    }
  }

  /** The number of ratted rows appended is the number of tasks that saved
      a verdict with reports, each counted once. */
  lemma RattedRows(tasks: seq<Task>, order: seq<nat>)
    requires AllEnd(tasks) && Distinct(order, |tasks|)
    ensures RattedCount(Appended(Outcomes(tasks), order)) == |SavedRattedSet(tasks, order)|
  {
    var outs := Outcomes(tasks);
    AppendedRatted(outs, order);
    forall i | i in order ensures RattedOut(outs, i) <==> SavedRatted(tasks, i) {
      if Saved(tasks, i) {
        ResultRowRatted(IndexLabel(i, |tasks|), tasks[i].address, ScanVerdict(tasks[i].responses));
      }
    }
    assert RattedOuts(outs, order) == SavedRattedSet(tasks, order);
  }

  /** One task of the gather: `find_address` for task `i` under its index
      string. The sheet gains what the task hands over, and the count cell
      of a new row gets its fill. */
  method RunTask(excel: Excel, tasks: seq<Task>, i: nat)
    requires excel.Valid() && AllEnd(tasks) && i < |tasks|
    modifies excel
    ensures excel.Valid()
    ensures excel.rows == old(excel.rows) + Handed(Outcomes(tasks)[i])
    ensures excel.widths == old(excel.widths)
  {
    assert Ends(tasks, i);
    var _, _, _, saved := FindAddress(excel, IndexLabel(i, |tasks|), tasks[i].address, tasks[i].responses, tasks[i].cycles);
    assert Outcomes(tasks)[i] == if saved then Some(RowOf(tasks, i)) else None;
  }

  /** The `asyncio.gather` of line 178 of main.py: every task's
      `find_address`, one `edit_table` at a time in completion order. The
      saved rows are appended in that order, each with its count fill. */
  method Gather(excel: Excel, tasks: seq<Task>, order: seq<nat>)
    requires excel.Valid() && excel.rows == [[], Header] && excel.fills == map[]
    requires AllEnd(tasks) && Distinct(order, |tasks|)
    modifies excel
    ensures excel.Valid()
    ensures excel.rows == [[], Header] + Appended(Outcomes(tasks), order)
    ensures excel.widths == old(excel.widths)
  {
    ghost var outs := Outcomes(tasks);
    for k := 0 to |order|
      invariant InRange(order[..k], |outs|)
      invariant excel.Valid()
      invariant excel.rows == [[], Header] + Appended(outs, order[..k])
      invariant excel.widths == old(excel.widths)
    {
      InRangePrefix(order, |outs|, k + 1);
      AppendedSnoc(outs, order, k);
      RunTask(excel, tasks, order[k]);
    }
    assert order[..|order|] == order;
  }

  /** `runner`: a fresh workbook, every task's `find_address` in completion
      order, then the final pass. The sheet holds the header and the saved
      rows in completion order; if the final pass saves, C1 holds the number
      of ratted addresses saved, and columns A, B and C keep their widths. */
  method Run(tasks: seq<Task>, order: seq<nat>, finalCycles: seq<Cycle>) returns (excel: Excel, finalSaved: bool)
    requires AllEnd(tasks) && IsOrder(order, |tasks|)
    requires exists k :: 0 <= k < |finalCycles| && Settles(finalCycles[k], true)
    ensures excel.Valid()
    ensures excel.rows[1..] == [Header] + Appended(Outcomes(tasks), order)
    ensures finalSaved == Succeeds(finalCycles, true)
    ensures finalSaved ==> CellOf(excel.rows[0], 3) == Text(Summary(|SavedRattedSet(tasks, order)|))
    ensures !finalSaved ==> excel.rows[0] == []
    ensures 1 in excel.widths && 2 in excel.widths && 3 in excel.widths
    ensures excel.widths[1] == 10 && excel.widths[2] == 46 && excel.widths[3] == 24
    // the widths of the report columns, as measured on the sheet the gather built
    ensures var sheet := [[], Header] + Appended(Outcomes(tasks), order);
      && Measurable(sheet)
      && (finalSaved ==> excel.widths == map[1 := 10, 2 := 46, 3 := 24] + Widths(Rect(sheet), MaxCol(sheet)))
      && (!finalSaved ==> excel.widths == map[1 := 10, 2 := 46, 3 := 24])
  {
    excel := new Excel();
    Gather(excel, tasks, order);
    ghost var rows := excel.rows;
    ghost var fixed := excel.widths;
    LastRowWritten(rows);
    FreshSheetCount(Appended(Outcomes(tasks), order));
    WellFormedMeasurable(rows);
    assert HasFixedWidths(fixed);
    FixedWidthsKept(fixed, rows);
    SucceedsIff(finalCycles, true, FirstSettling(finalCycles, true));
    finalSaved := excel.FinalFormatting(finalCycles);
    if finalSaved {
      RattedRows(tasks, order);
    }
    assert HasFixedWidths(excel.widths);
    assert excel.rows[1..] == rows[1..];
  }
}
