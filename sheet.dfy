/** The result sheet as data (main.py, class `Excel`): rows of cells, the row
    `edit_table` appends for one address, and what `final_formatting` reads off
    the sheet (the count of ratted addresses and the width of every report
    column). Row r of the sheet is `rows[r - 1]`; a row lists its cells up to
    its last written one, and a position past the end of a row is blank. */
module Sheet {
  import opened Wrappers
  import opened Strings
  import opened Extractor

  /** A cell value as openpyxl hands it back: None, a string (formulas
      included) or an int. */
  datatype Cell = Blank | Text(s: string) | Number(n: int)

  /** Row 2 as `Excel.__init__` writes it; row 1 is left empty. */
  const Header: seq<Cell> := [Text("Index"), Text("Address"), Text("Reports count"), Text("Reports data")]

  /** Fill colours of the count cell. */
  const RattedFill := "ff0f0f"
  const ClearFill := "32CD32"

  const SummaryPrefix := "Total ratted addresses: "
  const HyperlinkTag := "=HYPERLINK"
  /** The separator `final_formatting` splits hyperlink formulas on. */
  const Sep := ", \""

  const FormulaOpen := "=HYPERLINK(\""
  const FormulaMiddle := "\", \""
  const FormulaClose := "\")"

  /** The report cell of one report. */
  function HyperlinkFormula(r: Report): string
  {
    FormulaOpen + r.link + FormulaMiddle + r.text + FormulaClose
  }

  function Formulas(reports: seq<Report>): (cells: seq<Cell>)
  {
    seq(|reports|, i requires 0 <= i < |reports| => Text(HyperlinkFormula(reports[i])))
  }

  /** `valid_info`: the row `edit_table` appends for one address. */
  function ResultRow(index: string, address: string, v: Verdict): (row: seq<Cell>)
    ensures |row| >= 3 && row[0] == Text(index) && row[1] == Text(address) && row[2].Number?
    ensures v.Clear? ==> row == [Text(index), Text(address), Number(0)]
    ensures v.Ratted? ==> |row| == 3 + |v.reports| && row[2] == Number(|v.reports|)
    ensures v.Ratted? ==> forall i :: 0 <= i < |v.reports| ==> row[3 + i] == Text(HyperlinkFormula(v.reports[i]))
  {
    match v
    case Clear => [Text(index), Text(address), Number(0)]
    case Ratted(reports) => [Text(index), Text(address), Number(|reports|)] + Formulas(reports)
  }

  /** The fill of a count cell holding `count`. */
  function FillFor(count: int): string
  {
    if count > 0 then RattedFill else ClearFill
  }

  /** A character openpyxl refuses in cell text (its `ILLEGAL_CHARACTERS_RE`):
      a character in U+0000 to U+001F other than tab (U+0009), line feed
      (U+000A) and carriage return (U+000D). Storing text that holds one
      raises `IllegalCharacterError`. */
  predicate IllegalChar(c: char)
  {
    var n := c as int;
    n <= 8 || n == 11 || n == 12 || 14 <= n <= 31
  }

  /** Text openpyxl accepts as a cell value. */
  predicate StorableText(t: string)
  {
    forall k :: 0 <= k < |t| ==> !IllegalChar(t[k])
  }

  /** A row `sheet.append` stores without raising: every text cell is storable. */
  predicate Storable(row: seq<Cell>)
  {
    forall i :: 0 <= i < |row| ==> row[i].Text? ==> StorableText(row[i].s)
  }

  /** Text is storable exactly when both of its parts are. */
  lemma StorableConcat(a: string, b: string)
    ensures StorableText(a + b) <==> StorableText(a) && StorableText(b)
  {
    if StorableText(a) && StorableText(b) {
      forall k | 0 <= k < |a + b| ensures !IllegalChar((a + b)[k]) {
        if k >= |a| {
          assert (a + b)[k] == b[k - |a|];
        }
      }
    }
    if StorableText(a + b) {
      forall k | 0 <= k < |a| ensures !IllegalChar(a[k]) {
        assert a[k] == (a + b)[k];
      }
      forall k | 0 <= k < |b| ensures !IllegalChar(b[k]) {
        assert b[k] == (a + b)[|a| + k];
      }
    }
  }

  /** A report cell is storable exactly when its link and its title are. */
  lemma FormulaStorable(r: Report)
    ensures StorableText(HyperlinkFormula(r)) <==> StorableText(r.link) && StorableText(r.text)
  {
    assert StorableText(FormulaOpen) && StorableText(FormulaMiddle) && StorableText(FormulaClose);
    StorableConcat(FormulaOpen, r.link);
    StorableConcat(FormulaOpen + r.link, FormulaMiddle);
    StorableConcat(FormulaOpen + r.link + FormulaMiddle, r.text);
    StorableConcat(FormulaOpen + r.link + FormulaMiddle + r.text, FormulaClose);
  }

  /** The texts of a verdict's reports are all storable. */
  predicate ReportsStorable(v: Verdict)
  {
    v.Ratted? ==> forall i :: 0 <= i < |v.reports| ==> StorableText(v.reports[i].link) && StorableText(v.reports[i].text)
  }

  /** `sheet.append(valid_info)` goes through exactly when the index string,
      the address and every report's link and title are storable. */
  lemma ResultRowStorable(index: string, address: string, v: Verdict)
    ensures Storable(ResultRow(index, address, v)) <==> StorableText(index) && StorableText(address) && ReportsStorable(v)
  {
    var row := ResultRow(index, address, v);
    if v.Ratted? {
      forall i | 0 <= i < |v.reports|
        ensures StorableText(row[3 + i].s) <==> StorableText(v.reports[i].link) && StorableText(v.reports[i].text)
      {
        FormulaStorable(v.reports[i]);
      }
      if Storable(row) {
        forall i | 0 <= i < |v.reports| ensures StorableText(v.reports[i].link) && StorableText(v.reports[i].text) {
          assert row[3 + i].Text?;
        }
      }
    }
  }

  /** Python's `str(cell.value)`. */
  function Render(c: Cell): (s: string)
  {
    match c
    case Blank => "None"
    case Text(t) => t
    case Number(n) => IntToString(n)
  }

  /** The length `final_formatting` measures for a cell: for a cell whose text
      contains `=HYPERLINK`, the piece after the first `, "`; otherwise the whole
      rendered text. None where the split raises. */
  function CellWidth(c: Cell): Option<nat>
  {
    var s := Render(c);
    if Contains(s, HyperlinkTag) then
      match SplitSecond(s, Sep)
      case None => None
      case Some(piece) => Some(|piece|)
    else Some(|s|)
  }

  /** Measuring fails exactly on a hyperlink-looking cell without `, "`; a cell
      that does not look like a hyperlink is measured whole. */
  lemma CellWidthSpec(c: Cell)
    ensures CellWidth(c).None? <==> Contains(Render(c), HyperlinkTag) && !Contains(Render(c), Sep)
    ensures !Contains(Render(c), HyperlinkTag) ==> CellWidth(c) == Some(|Render(c)|)
  {
    SplitSecondSpec(Render(c), Sep);
  }

  /** An empty position is measured as the four letters of `None`. */
  lemma BlankWidth()
    ensures CellWidth(Blank) == Some(4)
  {
    NotContainsWithoutHead("None", HyperlinkTag);
  }

  /** A report cell starts with `=HYPERLINK`. */
  lemma HyperlinkTagged(r: Report)
    ensures Contains(HyperlinkFormula(r), HyperlinkTag)
  {
    var s := HyperlinkFormula(r);
    assert s[..|HyperlinkTag|] == FormulaOpen[..|HyperlinkTag|];
    OccursThenContains(s, HyperlinkTag, 0);
  }

  /** In a report cell, `, "` follows the link and its closing quote. */
  lemma SepAfterLink(r: Report)
    ensures OccursAt(HyperlinkFormula(r), Sep, |FormulaOpen| + |r.link| + 1)
  {
    var s := HyperlinkFormula(r);
    var p0 := |FormulaOpen| + |r.link| + 1;
    assert s[p0..p0 + 3] == FormulaMiddle[1..];
  }

  /** Before the end of a comma-free link, a report cell holds no comma. */
  lemma NoSepInHead(r: Report, k: nat)
    requires forall i :: 0 <= i < |r.link| ==> r.link[i] != ','
    requires k < |FormulaOpen| + |r.link| + 1
    ensures !OccursAt(HyperlinkFormula(r), Sep, k)
  {
    var s := HyperlinkFormula(r);
    if k + 3 <= |s| {
      assert s[k..k + 3][0] == s[k];
      if k < |FormulaOpen| {
        assert s[k] == FormulaOpen[k];
      } else if k < |FormulaOpen| + |r.link| {
        assert s[k] == r.link[k - |FormulaOpen|];
      } else {
        assert s[k] == '"';
      }
    }
  }

  /** With a comma-free link, the first `, "` of a report cell is the one after the link. */
  lemma FirstSep(r: Report)
    requires forall i :: 0 <= i < |r.link| ==> r.link[i] != ','
    ensures IndexOf(HyperlinkFormula(r), Sep) == Some(|FormulaOpen| + |r.link| + 1)
  {
    var p0 := |FormulaOpen| + |r.link| + 1;
    SepAfterLink(r);
    forall k: nat | k < p0 ensures !OccursAt(HyperlinkFormula(r), Sep, k) {
      NoSepInHead(r, k);
    }
    IndexOfAt(HyperlinkFormula(r), Sep, p0);
  }

  /** A hyperlink cell is measured on its display text followed by `")`, cut at
      the first `, "` in it, provided the link holds no comma. */
  lemma HyperlinkWidth(r: Report)
    requires forall i :: 0 <= i < |r.link| ==> r.link[i] != ','
    ensures CellWidth(Text(HyperlinkFormula(r))) == Some(|UpTo(r.text + FormulaClose, Sep)|)
  {
    var s := HyperlinkFormula(r);
    var p0 := |FormulaOpen| + |r.link| + 1;
    HyperlinkTagged(r);
    FirstSep(r);
    assert s[p0 + |Sep|..] == r.text + FormulaClose;
    assert SplitSecond(s, Sep) == Some(UpTo(r.text + FormulaClose, Sep));
  }

  /** With no comma in the link and none in the title, the measured length is
      the title's length plus the two closing characters `")`. */
  lemma HyperlinkWidthPlain(r: Report)
    requires forall i :: 0 <= i < |r.link| ==> r.link[i] != ','
    requires forall i :: 0 <= i < |r.text| ==> r.text[i] != ','
    ensures CellWidth(Text(HyperlinkFormula(r))) == Some(|r.text| + 2)
  {
    HyperlinkWidth(r);
    var t := r.text + FormulaClose;
    forall i | 0 <= i < |t| ensures t[i] != Sep[0] {
      if i >= |r.text| {
        assert t[i] == FormulaClose[i - |r.text|];
      }
    }
    NotContainsWithoutHead(t, Sep);
    UpToSpec(t, Sep);
  }

  /** The split in `final_formatting` never raises on a cell `edit_table` wrote. */
  lemma HyperlinkMeasurable(r: Report)
    ensures CellWidth(Text(HyperlinkFormula(r))).Some?
  {
    SepAfterLink(r);
    OccursThenContains(HyperlinkFormula(r), Sep, |FormulaOpen| + |r.link| + 1);
    CellWidthSpec(Text(HyperlinkFormula(r)));
  }

  /** The cell in column `col` (1-based) of a row. */
  function CellOf(row: seq<Cell>, col: nat): Cell
  {
    if 1 <= col <= |row| then row[col - 1] else Blank
  }

  predicate IsBlankRow(row: seq<Cell>)
  {
    forall i :: 0 <= i < |row| ==> row[i] == Blank
  }

  /** `sheet.min_row - 1`: the index of the first row holding a written cell
      (`|rows|` for a sheet with none). */
  function MinRow(rows: seq<seq<Cell>>): (k: nat)
    ensures k <= |rows|
    ensures forall r :: 0 <= r < k ==> IsBlankRow(rows[r])
    ensures k < |rows| ==> !IsBlankRow(rows[k])
  {
    if rows == [] then 0
    else if !IsBlankRow(rows[0]) then 0
    else 1 + MinRow(rows[1..])
  }

  /** `sheet.max_row`: one past the index of the last row holding a written
      cell (0 for a sheet with none). */
  function MaxRow(rows: seq<seq<Cell>>): (k: nat)
    ensures k <= |rows|
  {
    if rows == [] then 0
    else if !IsBlankRow(rows[|rows| - 1]) then |rows|
    else MaxRow(rows[..|rows| - 1])
  }

  /** Every row after `max_row` is empty, and row `max_row` is not. */
  lemma {:induction false} MaxRowSpec(rows: seq<seq<Cell>>)
    ensures forall r :: MaxRow(rows) <= r < |rows| ==> IsBlankRow(rows[r])
    ensures MaxRow(rows) > 0 ==> !IsBlankRow(rows[MaxRow(rows) - 1])
  {
    if rows != [] && IsBlankRow(rows[|rows| - 1]) {
      var init := rows[..|rows| - 1];
      MaxRowSpec(init);
      assert forall r :: 0 <= r < |init| ==> init[r] == rows[r];
    }
  }

  /** A sheet whose last row holds a written cell ends at that row. */
  lemma MaxRowLast(rows: seq<seq<Cell>>)
    requires rows != [] && !IsBlankRow(rows[|rows| - 1])
    ensures MaxRow(rows) == |rows|
  {
  }

  /** Row `i` of the walk is row `MinRow + i` of the sheet. */
  lemma RectRow(rows: seq<seq<Cell>>, i: nat)
    requires i < |Rect(rows)|
    ensures MinRow(rows) + i < |rows| && Rect(rows)[i] == rows[MinRow(rows) + i]
  {
  }

  /** A sheet of an empty row 1, a written row 2 and appended rows ending in
      a written one is walked from row 2 to its end. */
  lemma RectAfterEmptyFirst(head: seq<Cell>, appended: seq<seq<Cell>>)
    requires !IsBlankRow(head)
    requires appended != [] ==> !IsBlankRow(appended[|appended| - 1])
    ensures ([[], head] + appended)[1..] == [head] + appended
    ensures Rect([[], head] + appended) == [head] + appended
  {
    var rows := [[], head] + appended;
    assert rows[|rows| - 1] == if appended == [] then head else appended[|appended| - 1];
    MaxRowLast(rows);
    assert rows[1..] == [head] + appended;
    assert MinRow(rows) == 1 by {
      assert IsBlankRow(rows[0]) && rows[1..][0] == head;
    }
  }

  /** The column of the last written cell of a row (0 for a row with none). */
  function RowLen(row: seq<Cell>): (n: nat)
    ensures n <= |row|
  {
    if row == [] then 0
    else if row[|row| - 1] != Blank then |row|
    else RowLen(row[..|row| - 1])
  }

  /** A row is empty exactly when it has no last written cell. */
  lemma {:induction false} BlankRowIff(row: seq<Cell>)
    ensures IsBlankRow(row) <==> RowLen(row) == 0
  {
    if row != [] && row[|row| - 1] == Blank {
      var init := row[..|row| - 1];
      BlankRowIff(init);
      assert forall i :: 0 <= i < |init| ==> init[i] == row[i];
      if IsBlankRow(init) {
        forall i | 0 <= i < |row| ensures row[i] == Blank {
          if i < |init| {
            assert row[i] == init[i];
          }
        }
      }
    }
  }

  /** Every position of a row after its last written cell is blank, and that cell is not. */
  lemma {:induction false} RowLenSpec(row: seq<Cell>)
    ensures RowLen(row) > 0 ==> row[RowLen(row) - 1] != Blank
    ensures forall col :: col > RowLen(row) ==> CellOf(row, col) == Blank
  {
    if row != [] && row[|row| - 1] == Blank {
      var init := row[..|row| - 1];
      RowLenSpec(init);
      forall col | col > RowLen(row) ensures CellOf(row, col) == Blank {
        if col < |row| {
          assert CellOf(row, col) == CellOf(init, col);
        }
      }
    }
  }

  /** `sheet.max_column`: the largest column holding a written cell. */
  function MaxCol(rows: seq<seq<Cell>>): (m: nat)
    ensures forall r :: 0 <= r < |rows| ==> RowLen(rows[r]) <= m
    ensures rows != [] ==> exists r :: 0 <= r < |rows| && RowLen(rows[r]) == m
  {
    if rows == [] then 0
    else
      var m := MaxCol(rows[..|rows| - 1]);
      var last := RowLen(rows[|rows| - 1]);
      assert forall r :: 0 <= r < |rows| - 1 ==> rows[r] == rows[..|rows| - 1][r];
      if m < last then last else m
  }

  /** The rows `final_formatting` walks: from `min_row` to `max_row`. */
  function Rect(rows: seq<seq<Cell>>): seq<seq<Cell>>
  {
    if MinRow(rows) <= MaxRow(rows) then rows[MinRow(rows)..MaxRow(rows)] else []
  }

  /** The text `final_formatting` writes to C1. */
  function Summary(k: nat): string
  {
    SummaryPrefix + NatToString(k)
  }

  /** The count can be read back from the C1 text. */
  lemma SummaryReadsBack(k: nat)
    ensures Summary(k)[..|SummaryPrefix|] == SummaryPrefix
    ensures ParseNat(Summary(k)[|SummaryPrefix|..]) == k
  {
    assert Summary(k)[|SummaryPrefix|..] == NatToString(k);
    ParseNatToString(k);
  }

  /** Row 1 with `v` written to its column 3. */
  function PutC1(row: seq<Cell>, v: Cell): (r: seq<Cell>)
    ensures |r| == if |row| < 3 then 3 else |row|
    ensures CellOf(r, 3) == v
    ensures forall col :: col != 3 ==> CellOf(r, col) == CellOf(row, col)
  {
    if |row| >= 3 then row[2 := v]
    else if |row| == 2 then row + [v]
    else if |row| == 1 then row + [Blank, v]
    else [Blank, Blank, v]
  }

  /** The sheet with `v` written to C1. */
  function WithC1(rows: seq<seq<Cell>>, v: Cell): (r: seq<seq<Cell>>)
    ensures |r| == if rows == [] then 1 else |rows|
    ensures CellOf(r[0], 3) == v
    ensures rows != [] ==> r[1..] == rows[1..]
  {
    if rows == [] then [PutC1([], v)] else [PutC1(rows[0], v)] + rows[1..]
  }
}
