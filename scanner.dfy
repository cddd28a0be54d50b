/** `find_address` (main.py): fetch the search page for an address until a
    response is not rate limited, then hand the verdict to `edit_table` once.
    The fetched pages come in as a sequence, one per request, in order; the
    60-second sleep after a rate-limited page is counted, not taken. */
module Scanner {
  import opened Wrappers
  import opened Strings
  import opened Extractor
  import opened Retry
  import opened Sheet
  import opened Workbook

  /** Some fetched page ends the loop. */
  predicate EventuallySettles(responses: seq<Response>)
  {
    exists k :: 0 <= k < |responses| && Classify(responses[k]).Settled?
  }

  /** The page that ends the loop: every earlier one was rate limited. */
  function FirstSettled(responses: seq<Response>): (k: nat)
    requires EventuallySettles(responses)
    ensures k < |responses| && Classify(responses[k]).Settled?
    ensures forall j :: 0 <= j < k ==> Classify(responses[j]) == RateLimited
  {
    if Classify(responses[0]).Settled? then 0
    else
      assert forall i :: 0 < i < |responses| ==> responses[1..][i - 1] == responses[i];
      1 + FirstSettled(responses[1..])
  }

  /** The `result` the loop breaks with. */
  function ScanVerdict(responses: seq<Response>): Verdict
    requires EventuallySettles(responses)
  {
    Classify(responses[FirstSettled(responses)]).verdict
  }

  /** The `while True` loop of `find_address` (lines 137-168 of main.py). It
      sleeps once per rate-limited page and stops at the first other page,
      with the verdict that page classifies to: one fetch more than sleeps. */
  method Scan(responses: seq<Response>) returns (verdict: Verdict, fetches: nat, sleeps: nat)
    requires EventuallySettles(responses)
    ensures fetches == sleeps + 1
    ensures sleeps < |responses|
    ensures forall j :: 0 <= j < sleeps ==> Classify(responses[j]) == RateLimited
    ensures Classify(responses[sleeps]) == Settled(verdict)
    ensures verdict == ScanVerdict(responses)
  {
    var last := FirstSettled(responses);
    fetches, sleeps := 0, 0;
    while true
      invariant sleeps <= last && fetches == sleeps
      decreases last - sleeps
    {
      var response := responses[fetches];
      fetches := fetches + 1;
      if Contains(response.body, NoResults) {
        verdict := Clear;
        break;
      } else if Contains(response.body, RateLimit) {
        sleeps := sleeps + 1;
      } else {
        match response.listing
        case None =>
          verdict := Clear;
          break;
        case Some(anchors) =>
          var data := CollectReports(anchors);
          verdict := Ratted(data);
          break;
      }
    }
  }

  /** `find_address`: scan, then one `edit_table` call with the verdict. On
      success the sheet has gained exactly the row of this address, and
      nothing else changed; on failure the sheet is as it was. */
  method FindAddress(excel: Excel, index: string, address: string, responses: seq<Response>, cycles: seq<Cycle>)
    returns (verdict: Verdict, fetches: nat, sleeps: nat, saved: bool)
    requires excel.Valid()
    requires EventuallySettles(responses)
    requires exists k :: 0 <= k < |cycles| && Settles(cycles[k], Storable(ResultRow(index, address, ScanVerdict(responses))))
    modifies excel
    ensures excel.Valid()
    ensures verdict == ScanVerdict(responses) && sleeps == FirstSettled(responses) && fetches == sleeps + 1
    ensures saved == Succeeds(cycles, Storable(ResultRow(index, address, verdict)))
    ensures saved ==> excel.rows == old(excel.rows) + [ResultRow(index, address, verdict)]
    ensures saved ==> excel.fills == old(excel.fills)[|excel.rows| := FillFor(ResultRow(index, address, verdict)[2].n)]
    ensures !saved ==> excel.rows == old(excel.rows) && excel.fills == old(excel.fills)
    ensures excel.widths == old(excel.widths)
  {
    verdict, fetches, sleeps := Scan(responses);
    saved := excel.EditTable(index, address, verdict, cycles);
  }
}
