/** The save retry policy of `Excel.edit_table` and `Excel.final_formatting`
    (main.py): each cycle loads the workbook, changes it in memory and saves
    it; a PermissionError anywhere in the cycle sleeps and starts the whole
    cycle again, any other exception ends the operation with False. The fate
    of the file operations of each cycle is an input: the model never touches
    a file. */
module Retry {
  /** How one file operation ends: done, PermissionError, or any other exception. */
  datatype Io = Done | Denied | Broken

  /** The fates of the load and of the save of one cycle. */
  datatype Cycle = Cycle(load: Io, save: Io)

  /** Whether a cycle ends the loop; `computeOk` says whether the in-memory
      step between load and save completes without raising. */
  predicate Settles(c: Cycle, computeOk: bool)
  {
    match c.load
    case Denied => false
    case Broken => true
    case Done => !computeOk || c.save != Denied
  }

  /** Whether a cycle ends with the workbook saved, i.e. the method returns True. */
  predicate Persists(c: Cycle, computeOk: bool)
  {
    c.load == Done && computeOk && c.save == Done
  }

  /** The cycle that ends the loop: every earlier one hit a PermissionError. */
  function FirstSettling(cycles: seq<Cycle>, computeOk: bool): (k: nat)
    requires exists i :: 0 <= i < |cycles| && Settles(cycles[i], computeOk)
    ensures k < |cycles| && Settles(cycles[k], computeOk)
    ensures forall j :: 0 <= j < k ==> !Settles(cycles[j], computeOk)
  {
    if Settles(cycles[0], computeOk) then 0
    else
      assert forall i :: 0 < i < |cycles| && Settles(cycles[i], computeOk) ==> Settles(cycles[1..][i - 1], computeOk);
      1 + FirstSettling(cycles[1..], computeOk)
  }

  /** Whether the operation driven by `cycles` returns True. */
  predicate Succeeds(cycles: seq<Cycle>, computeOk: bool)
    requires exists i :: 0 <= i < |cycles| && Settles(cycles[i], computeOk)
  {
    Persists(cycles[FirstSettling(cycles, computeOk)], computeOk)
  }

  /** A PermissionError-only prefix followed by a cycle that saves means success;
      a cycle with any other exception before that means failure. */
  lemma SucceedsIff(cycles: seq<Cycle>, computeOk: bool, k: nat)
    requires k < |cycles| && Settles(cycles[k], computeOk)
    requires forall j :: 0 <= j < k ==> !Settles(cycles[j], computeOk)
    ensures Succeeds(cycles, computeOk) <==> Persists(cycles[k], computeOk)
  {
    var f := FirstSettling(cycles, computeOk);
    assert !(f < k) && !(k < f);
  }
}
