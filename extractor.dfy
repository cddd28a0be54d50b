/** How one search response is read (main.py, the decision chain inside
    `find_address`): the no-results sentinel, then the rate-limit sentinel,
    then the results container of the parsed page. The HTML parser itself is
    not modelled: a response carries, beside its body text, the issue rows the
    parser would find in the results container, or None when the page has no
    such container. */
module Extractor {
  import opened Wrappers
  import opened Strings

  const NoResults := "No results matched your search."
  const RateLimit := "You have exceeded a secondary rate limit"
  const Host := "https://github.com"

  /** One issue row of the results container: the title anchor's `href` and text. */
  datatype Anchor = Anchor(href: string, text: string)

  /** A fetched page: its body, and the rows of its results container if it has one. */
  datatype Response = Response(body: string, listing: Option<seq<Anchor>>)

  /** One entry of `reports_data`. */
  datatype Report = Report(link: string, text: string)

  /** The `result` dict handed to `edit_table`: `{"status": False}` or
      `{"status": True, "reports_data": reports}`. */
  datatype Verdict = Clear | Ratted(reports: seq<Report>)

  /** What one response tells the scan loop: fetch again, or stop with a verdict. */
  datatype Classification = RateLimited | Settled(verdict: Verdict)

  /** The report an issue row becomes: the site-relative `href` made absolute. */
  function ReportOf(a: Anchor): Report
  {
    Report(Host + a.href, a.text)
  }

  /** The reports of a listing, one per row, in document order. */
  function ReportsOf(anchors: seq<Anchor>): (rs: seq<Report>)
    ensures |rs| == |anchors|
    ensures forall i :: 0 <= i < |anchors| ==> rs[i].link == Host + anchors[i].href && rs[i].text == anchors[i].text
  {
    if anchors == [] then []
    else ReportsOf(anchors[..|anchors| - 1]) + [ReportOf(anchors[|anchors| - 1])]
  }

  /** The loop that builds `reports_data` from the issue rows. */
  method CollectReports(anchors: seq<Anchor>) returns (data: seq<Report>)
    ensures data == ReportsOf(anchors)
  {
    data := [];
    for i := 0 to |anchors|
      invariant data == ReportsOf(anchors[..i])
    {
      assert anchors[..i + 1][..i] == anchors[..i];
      data := data + [ReportOf(anchors[i])];
    }
    assert anchors[..|anchors|] == anchors;
  }

  /** The decision chain over one response. */
  function Classify(r: Response): (c: Classification)
    // the no-results sentinel wins over everything else, the rate-limit phrase included
    ensures Contains(r.body, NoResults) ==> c == Settled(Clear)
    // only a body with the rate-limit phrase and without the no-results sentinel is retried
    ensures c == RateLimited <==> !Contains(r.body, NoResults) && Contains(r.body, RateLimit)
    // a page without the results container degrades to clear rather than an error
    ensures !Contains(r.body, NoResults) && !Contains(r.body, RateLimit) && r.listing.None? ==> c == Settled(Clear)
    // a result is found exactly when neither sentinel is present and the container is there,
    // and then it carries one report per row, in document order
    ensures (c.Settled? && c.verdict.Ratted?) <==> !Contains(r.body, NoResults) && !Contains(r.body, RateLimit) && r.listing.Some?
    ensures c.Settled? && c.verdict.Ratted? ==> c.verdict.reports == ReportsOf(r.listing.value)
  {
    if Contains(r.body, NoResults) then Settled(Clear)
    else if Contains(r.body, RateLimit) then RateLimited
    else match r.listing
      case None => Settled(Clear)
      case Some(anchors) => Settled(Ratted(ReportsOf(anchors)))
  }
}
