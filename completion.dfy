/** The sheet the concurrent tasks of `runner` (main.py) leave behind. The
    workbook lock lets one `edit_table` run at a time, so the rows arrive in
    the order the tasks reach the lock; each task hands over its row, or
    nothing when its save gave up. This module speaks of any such order and
    any such hand-over: which rows the sheet ends up with, how often each
    row's label occurs in it, and how many of its rows count as ratted. */
module Completion {
  import opened Wrappers
  import opened Sheet
  import opened Formatting

  /** Every entry indexes one of `n` tasks. */
  predicate InRange(order: seq<nat>, n: nat)
  {
    forall k :: 0 <= k < |order| ==> order[k] < n
  }

  /** Indexes into `n` tasks, each at most once. */
  predicate Distinct(order: seq<nat>, n: nat)
  {
    InRange(order, n) && forall a, b :: 0 <= a < b < |order| ==> order[a] != order[b]
  }

  /** A completion order: every one of `n` tasks exactly once. */
  predicate IsOrder(order: seq<nat>, n: nat)
  {
    Distinct(order, n) && forall i :: 0 <= i < n ==> i in order
  }

  /** A prefix of distinct indexes is distinct. */
  lemma DistinctPrefix(order: seq<nat>, n: nat, k: nat)
    requires Distinct(order, n) && k <= |order|
    ensures Distinct(order[..k], n)
  {
    var p := order[..k];
    forall a, b | 0 <= a < b < |p| ensures p[a] != p[b] {
      assert p[a] == order[a] && p[b] == order[b];
    }
  }

  /** The last of distinct indexes is not among the others. */
  lemma LastIsNew(order: seq<nat>, n: nat)
    requires Distinct(order, n) && order != []
    ensures order[|order| - 1] !in order[..|order| - 1]
  {
    var p := order[..|order| - 1];
    forall a | 0 <= a < |p| ensures p[a] != order[|order| - 1] {
      assert p[a] == order[a];
    }
  }

  /** The rows one task adds: its row, or none. */
  function Handed(out: Option<seq<Cell>>): seq<seq<Cell>>
  {
    match out
    case None => []
    case Some(row) => [row]
  }

  /** The rows appended once the tasks in `order` have run, in that order,
      task `i` handing over `outs[i]`. */
  function Appended(outs: seq<Option<seq<Cell>>>, order: seq<nat>): seq<seq<Cell>>
    requires InRange(order, |outs|)
  {
    if order == [] then []
    else Appended(outs, order[..|order| - 1]) + Handed(outs[order[|order| - 1]])
  }

  /** A prefix of indexes in range is in range. */
  lemma InRangePrefix(order: seq<nat>, n: nat, k: nat)
    requires InRange(order, n) && k <= |order|
    ensures InRange(order[..k], n)
  {
  }

  /** Running the next task of the order appends what it hands over. */
  lemma AppendedSnoc(outs: seq<Option<seq<Cell>>>, order: seq<nat>, k: nat)
    requires InRange(order, |outs|) && k < |order|
    requires InRange(order[..k], |outs|) && InRange(order[..k + 1], |outs|)
    ensures Appended(outs, order[..k + 1]) == Appended(outs, order[..k]) + Handed(outs[order[k]])
  {
    var p := order[..k + 1];
    assert p[..|p| - 1] == order[..k];
  }

  /** How many rows carry `tag` in column A. */
  function LabelCount(rows: seq<seq<Cell>>, tag: string): nat
  {
    if rows == [] then 0
    else LabelCount(rows[..|rows| - 1], tag) + if CellOf(rows[|rows| - 1], 1) == Text(tag) then 1 else 0
  }

  lemma {:induction false} LabelCountAppend(a: seq<seq<Cell>>, b: seq<seq<Cell>>, tag: string)
    ensures LabelCount(a + b, tag) == LabelCount(a, tag) + LabelCount(b, tag)
  {
    if b != [] {
      assert (a + b)[..|a + b| - 1] == a + b[..|b| - 1];
      LabelCountAppend(a, b[..|b| - 1], tag);
    } else {
      assert a + b == a;
    }
  }

  /** Task `i` hands over a row labelled `tag`. */
  predicate Carries(outs: seq<Option<seq<Cell>>>, i: nat, tag: string)
  {
    i < |outs| && outs[i].Some? && CellOf(outs[i].value, 1) == Text(tag)
  }

  /** The tasks of `order` that hand over a row labelled `tag`. */
  function Carriers(outs: seq<Option<seq<Cell>>>, order: seq<nat>, tag: string): set<nat>
  {
    set i | i in order && Carries(outs, i, tag)
  }

  lemma CarriersSnoc(outs: seq<Option<seq<Cell>>>, order: seq<nat>, tag: string)
    requires order != [] && order[|order| - 1] !in order[..|order| - 1]
    ensures |Carriers(outs, order, tag)| ==
      |Carriers(outs, order[..|order| - 1], tag)| + if Carries(outs, order[|order| - 1], tag) then 1 else 0
  {
    var init := order[..|order| - 1];
    var j := order[|order| - 1];
    assert forall i :: i in order <==> i in init || i == j;
    if Carries(outs, j, tag) {
      assert Carriers(outs, order, tag) == Carriers(outs, init, tag) + {j};
    } else {
      assert Carriers(outs, order, tag) == Carriers(outs, init, tag);
    }
  }

  /** Every row labelled `tag` comes from one task that handed one over, and
      each such task's row is there once. */
  lemma {:induction false} AppendedLabels(outs: seq<Option<seq<Cell>>>, order: seq<nat>, tag: string)
    requires Distinct(order, |outs|)
    ensures LabelCount(Appended(outs, order), tag) == |Carriers(outs, order, tag)|
  {
    if order != [] {
      var init := order[..|order| - 1];
      var out := outs[order[|order| - 1]];
      DistinctPrefix(order, |outs|, |order| - 1);
      LastIsNew(order, |outs|);
      AppendedLabels(outs, init, tag);
      LabelCountAppend(Appended(outs, init), Handed(out), tag);
      if out.Some? {
        assert Handed(out)[..0] == [];
      }
      CarriersSnoc(outs, order, tag);
    }
  }

  /** Task `i` hands over a ratted row. */
  predicate RattedOut(outs: seq<Option<seq<Cell>>>, i: nat)
  {
    i < |outs| && outs[i].Some? && IsRatted(outs[i].value)
  }

  /** The tasks of `order` that hand over a ratted row. */
  function RattedOuts(outs: seq<Option<seq<Cell>>>, order: seq<nat>): set<nat>
  {
    set i | i in order && RattedOut(outs, i)
  }

  lemma RattedOutsSnoc(outs: seq<Option<seq<Cell>>>, order: seq<nat>)
    requires order != [] && order[|order| - 1] !in order[..|order| - 1]
    ensures |RattedOuts(outs, order)| ==
      |RattedOuts(outs, order[..|order| - 1])| + if RattedOut(outs, order[|order| - 1]) then 1 else 0
  {
    var init := order[..|order| - 1];
    var j := order[|order| - 1];
    assert forall i :: i in order <==> i in init || i == j;
    if RattedOut(outs, j) {
      assert RattedOuts(outs, order) == RattedOuts(outs, init) + {j};
    } else {
      assert RattedOuts(outs, order) == RattedOuts(outs, init);
    }
  }

  /** The ratted rows appended are the tasks that handed over a ratted row, once each. */
  lemma {:induction false} AppendedRatted(outs: seq<Option<seq<Cell>>>, order: seq<nat>)
    requires Distinct(order, |outs|)
    ensures RattedCount(Appended(outs, order)) == |RattedOuts(outs, order)|
  {
    if order != [] {
      var init := order[..|order| - 1];
      var out := outs[order[|order| - 1]];
      DistinctPrefix(order, |outs|, |order| - 1);
      LastIsNew(order, |outs|);
      AppendedRatted(outs, init);
      RattedCountAppend(Appended(outs, init), Handed(out));
      if out.Some? {
        assert Handed(out)[..0] == [];
      }
      RattedOutsSnoc(outs, order);
    }
  }

  /** The tasks of `order` that hand over a row. */
  function Handers(outs: seq<Option<seq<Cell>>>, order: seq<nat>): set<nat>
  {
    set i | i in order && i < |outs| && outs[i].Some?
  }

  lemma HandersSnoc(outs: seq<Option<seq<Cell>>>, order: seq<nat>)
    requires order != [] && order[|order| - 1] !in order[..|order| - 1] && order[|order| - 1] < |outs|
    ensures |Handers(outs, order)| ==
      |Handers(outs, order[..|order| - 1])| + if outs[order[|order| - 1]].Some? then 1 else 0
  {
    var init := order[..|order| - 1];
    var j := order[|order| - 1];
    assert forall i :: i in order <==> i in init || i == j;
    if outs[j].Some? {
      assert Handers(outs, order) == Handers(outs, init) + {j};
    } else {
      assert Handers(outs, order) == Handers(outs, init);
    }
  }

  /** As many rows are appended as tasks of the order hand one over. */
  lemma {:induction false} AppendedSize(outs: seq<Option<seq<Cell>>>, order: seq<nat>)
    requires Distinct(order, |outs|)
    ensures |Appended(outs, order)| == |Handers(outs, order)|
  {
    if order != [] {
      DistinctPrefix(order, |outs|, |order| - 1);
      LastIsNew(order, |outs|);
      AppendedSize(outs, order[..|order| - 1]);
      HandersSnoc(outs, order);
    }
  }

  /** Every appended row is the row some task of the order handed over. */
  lemma {:induction false} AppendedFrom(outs: seq<Option<seq<Cell>>>, order: seq<nat>)
    requires InRange(order, |outs|)
    ensures forall r :: 0 <= r < |Appended(outs, order)| ==>
      exists i :: i in order && i < |outs| && outs[i].Some? && Appended(outs, order)[r] == outs[i].value
  {
    if order != [] {
      var init := order[..|order| - 1];
      var j := order[|order| - 1];
      InRangePrefix(order, |outs|, |order| - 1);
      AppendedFrom(outs, init);
      var a := Appended(outs, order);
      forall r | 0 <= r < |a| ensures exists i :: i in order && i < |outs| && outs[i].Some? && a[r] == outs[i].value {
        if r < |Appended(outs, init)| {
          var i :| i in init && i < |outs| && outs[i].Some? && Appended(outs, init)[r] == outs[i].value;
          assert i in order;
        } else {
          assert a[r] == outs[j].value;
        }
      }
    } else {
      assert Appended(outs, order) == [];
    }
  }

  /** A first row that is not ratted adds nothing to the count. */
  lemma HeadNotCounted(head: seq<Cell>, appended: seq<seq<Cell>>)
    requires !IsRatted(head)
    ensures RattedCount([head] + appended) == RattedCount(appended)
  {
    RattedCountAppend([head], appended);
    assert [head][..0] == [];
  }

  /** On the sheet `Excel.__init__` creates, with rows appended after the
      header, the final pass walks the header and the appended rows and
      counts only the latter. */
  lemma FreshSheetCount(appended: seq<seq<Cell>>)
    requires appended != [] ==> !IsBlankRow(appended[|appended| - 1])
    ensures ([[], Header] + appended)[1..] == [Header] + appended
    ensures Rect([[], Header] + appended) == [Header] + appended
    ensures RattedCount(Rect([[], Header] + appended)) == RattedCount(appended)
  {
    assert Header[0] != Blank;
    RectAfterEmptyFirst(Header, appended);
    HeadNotCounted(Header, appended);
  }
}
