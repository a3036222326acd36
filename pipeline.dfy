/**
 * fetchFivePages (index.js:85-219): five page requests in a fixed order,
 * each page saved as `page-<k>.html` as soon as it arrives, the first
 * failure aborting everything after it (and being swallowed by the catch),
 * and, only when all five arrived, one `case_metadata.json` holding the
 * records of the five pages in page order.
 *
 * The network is an input: `outcomes[k - 1]` is what the k-th request
 * delivers. Saving a file is an effect "issued with name and content".
 */
module Pipeline {
  import opened Wrappers
  import opened Status
  import opened Extraction

  const PageCount: nat := 5

  const BaseUrl := "http://kenyalaw.org/caselaw/cases/advanced_search/"
  /** The Referer sent with the search submission. */
  const SearchReferer := "http://kenyalaw.org/caselaw/cases/advanced_search_courts?court=190000"
  const MetadataFileName := "case_metadata.json"

  datatype Verb = Get | Post

  /** The parts of a request that differ between pages. */
  datatype PageRequest = PageRequest(url: string, verb: Verb, referer: string)

  /** URL of page k: the search endpoint, then `page/<10(k - 1)>/` for
      k > 1. */
  function PageUrl(k: nat): string
    requires 1 <= k <= PageCount
  {
    BaseUrl + if k == 1 then "" else "page/" + [('0' as int + k - 1) as char] + "0/"
  }

  /** The five URLs of index.js:88-92. */
  lemma PageUrls()
    ensures PageUrl(1) == "http://kenyalaw.org/caselaw/cases/advanced_search/"
    ensures PageUrl(2) == "http://kenyalaw.org/caselaw/cases/advanced_search/page/10/"
    ensures PageUrl(3) == "http://kenyalaw.org/caselaw/cases/advanced_search/page/20/"
    ensures PageUrl(4) == "http://kenyalaw.org/caselaw/cases/advanced_search/page/30/"
    ensures PageUrl(5) == "http://kenyalaw.org/caselaw/cases/advanced_search/page/40/"
  {
  }

  /** Page 1 is the POSTed search form; pages 2..5 are GETs whose Referer is
      the previous page's URL. */
  function RequestFor(k: nat): PageRequest
    requires 1 <= k <= PageCount
  {
    if k == 1 then PageRequest(BaseUrl, Post, SearchReferer)
    else PageRequest(PageUrl(k), Get, PageUrl(k - 1))
  }

  lemma RefererIsPreviousPage(k: nat)
    requires 2 <= k <= PageCount
    ensures RequestFor(1) == PageRequest(BaseUrl, Post, SearchReferer)
    ensures RequestFor(k).verb == Get && RequestFor(k).url == PageUrl(k)
    ensures RequestFor(k).referer == RequestFor(k - 1).url
  {
  }

  /** `page-<k>.html`. */
  function PageFileName(k: nat): (name: string)
    requires 1 <= k <= PageCount
    ensures |name| == 11 && name[5] == ('0' as int + k) as char
  {
    "page-" + [('0' as int + k) as char] + ".html"
  }

  /** Distinct pages are saved under distinct names, none of them the
      metadata file. */
  lemma FileNamesDistinct(j: nat, k: nat)
    requires 1 <= j <= PageCount && 1 <= k <= PageCount
    ensures PageFileName(j) == PageFileName(k) <==> j == k
    ensures PageFileName(k) != MetadataFileName
  {
    if PageFileName(j) == PageFileName(k) {
      assert PageFileName(j)[5] == PageFileName(k)[5];
    }
    assert |MetadataFileName| == 18;
  }

  /** What one `await fetch(...)` delivers: a rejection, or a response. */
  datatype FetchOutcome = Rejected | Received(response: HttpResponse)

  /** The request was answered with an ok status. */
  predicate Succeeds(o: FetchOutcome) {
    o.Received? && IsOkStatus(o.response.status)
  }

  /** What the scraper does that the outside world can see. */
  datatype Effect =
    | Requested(page: nat, request: PageRequest)
    | SavedHtml(fileName: string, html: string)
    | SavedMetadata(fileName: string, records: seq<CaseRecord>)

  /** One page stage (e.g. index.js:116-125): request page k, check the
      status, save the body. The body of a failed request is never saved; a
      failure carries the reason the stage threw. */
  method FetchPage(k: nat, outcome: FetchOutcome) returns (html: Result<string, FetchError>, effects: seq<Effect>)
    requires 1 <= k <= PageCount
    ensures html.Success? <==> Succeeds(outcome)
    ensures html.Success? ==> html.value == outcome.response.body
    ensures html.Failure? && outcome.Rejected? ==> html.error == RequestRejected
    ensures html.Failure? && outcome.Received? ==> html.error == StatusCodeError(outcome.response.status)
    ensures effects == [Requested(k, RequestFor(k))] + if html.Success? then [SavedHtml(PageFileName(k), html.value)] else []
  {
    effects := [Requested(k, RequestFor(k))];
    match outcome
    case Rejected =>
      html := Failure(RequestRejected);
    case Received(response) =>
      html := CheckStatusAndParse(response);
      if html.Success? {
        effects := effects + [SavedHtml(PageFileName(k), html.value)];
      }
  }

  /** How many requests, from the first, succeed before the first failure. */
  function LeadingSuccesses(outcomes: seq<FetchOutcome>): (n: nat)
    ensures n <= |outcomes|
    ensures forall i :: 0 <= i < n ==> Succeeds(outcomes[i])
    ensures n < |outcomes| ==> !Succeeds(outcomes[n])
  {
    if outcomes == [] || !Succeeds(outcomes[0]) then 0
    else 1 + LeadingSuccesses(outcomes[1..])
  }

  /** The bodies of the first n pages, all of which succeeded. */
  function Bodies(outcomes: seq<FetchOutcome>, n: nat): (bodies: seq<string>)
    requires n <= |outcomes|
    requires forall i :: 0 <= i < n ==> Succeeds(outcomes[i])
    ensures |bodies| == n
    ensures forall i :: 0 <= i < n ==> Succeeds(outcomes[i]) && bodies[i] == outcomes[i].response.body
  {
    if n == 0 then []
    else
      assert Succeeds(outcomes[n - 1]);
      Bodies(outcomes, n - 1) + [outcomes[n - 1].response.body]
  }

  /** The effects of the first n stages when all of them succeed: request
      page k, save page k, for k = 1..n. */
  function Progress(outcomes: seq<FetchOutcome>, n: nat): (effects: seq<Effect>)
    requires n <= |outcomes| && n <= PageCount
    requires forall i :: 0 <= i < n ==> Succeeds(outcomes[i])
  {
    if n == 0 then []
    else
      assert Succeeds(outcomes[n - 1]);
      Progress(outcomes, n - 1)
         + [Requested(n, RequestFor(n)), SavedHtml(PageFileName(n), outcomes[n - 1].response.body)]
  }

  /** The records one page yields. */
  type PageExtractor = string -> seq<CaseRecord>

  /** extractMetadata as a function of the page. */
  function PageExtraction(select: Selector, format: DateFormatter): PageExtractor {
    html => Records(select(html), format)
  }

  /** All records of the given pages: page order, then document order. */
  function AllRecords(pages: seq<string>, extract: PageExtractor): seq<CaseRecord> {
    if pages == [] then []
    else AllRecords(pages[..|pages| - 1], extract) + extract(pages[|pages| - 1])
  }

  /** What a run does, given what the five requests deliver: the stages up to
      the first failure, then its final effect. */
  function Run(outcomes: seq<FetchOutcome>, extract: PageExtractor): seq<Effect>
    requires |outcomes| == PageCount
  {
    Progress(outcomes, LeadingSuccesses(outcomes)) + [FinalEffect(outcomes, extract)]
  }

  /** The failing request (and nothing more), or, when there was no failure,
      the metadata file. */
  function FinalEffect(outcomes: seq<FetchOutcome>, extract: PageExtractor): Effect
    requires |outcomes| == PageCount
  {
    var n := LeadingSuccesses(outcomes);
    if n < PageCount then Requested(n + 1, RequestFor(n + 1))
    else SavedMetadata(MetadataFileName, AllRecords(Bodies(outcomes, n), extract))
  }

  /** fetchFivePages. It never throws: the catch swallows the first failure
      (it only logs it), so its one result is what it did. */
  method FetchFivePages(outcomes: seq<FetchOutcome>, select: Selector, format: DateFormatter)
    returns (effects: seq<Effect>)
    requires |outcomes| == PageCount
    ensures effects == Run(outcomes, PageExtraction(select, format))
  {
    ghost var extract := PageExtraction(select, format);
    effects := [];

    var html1, e1 := FetchPage(1, outcomes[0]);
    ghost var before1 := effects;
    effects := effects + e1;
    if html1.Failure? { RunAborted(outcomes, extract, 1); return; }
    StageDone(outcomes, 1, before1, e1);

    var html2, e2 := FetchPage(2, outcomes[1]);
    ghost var before2 := effects;
    effects := effects + e2;
    if html2.Failure? { RunAborted(outcomes, extract, 2); return; }
    StageDone(outcomes, 2, before2, e2);

    var html3, e3 := FetchPage(3, outcomes[2]);
    ghost var before3 := effects;
    effects := effects + e3;
    if html3.Failure? { RunAborted(outcomes, extract, 3); return; }
    StageDone(outcomes, 3, before3, e3);

    var html4, e4 := FetchPage(4, outcomes[3]);
    ghost var before4 := effects;
    effects := effects + e4;
    if html4.Failure? { RunAborted(outcomes, extract, 4); return; }
    StageDone(outcomes, 4, before4, e4);

    var html5, e5 := FetchPage(5, outcomes[4]);
    ghost var before5 := effects;
    effects := effects + e5;
    if html5.Failure? { RunAborted(outcomes, extract, 5); return; }
    StageDone(outcomes, 5, before5, e5);

    var htmlContent := [html1.value, html2.value, html3.value, html4.value, html5.value];
    assert htmlContent == Bodies(outcomes, PageCount);

    var allMetadata := CollectMetadata(htmlContent, select, format);
    effects := effects + [SavedMetadata(MetadataFileName, allMetadata)];
    RunCompleted(outcomes, extract);
  }

  /** A successful stage k extends the first k - 1 stages. */
  lemma StageDone(outcomes: seq<FetchOutcome>, k: nat, before: seq<Effect>, stage: seq<Effect>)
    requires 1 <= k <= |outcomes| && k <= PageCount
    requires forall i :: 0 <= i < k - 1 ==> Succeeds(outcomes[i])
    requires Succeeds(outcomes[k - 1])
    requires before == Progress(outcomes, k - 1)
    requires stage == [Requested(k, RequestFor(k))] + [SavedHtml(PageFileName(k), outcomes[k - 1].response.body)]
    ensures before + stage == Progress(outcomes, k)
  {
  }

  /** A run whose request k is the first to fail: the first k - 1 stages,
      then request k. */
  lemma RunAborted(outcomes: seq<FetchOutcome>, extract: PageExtractor, k: nat)
    requires |outcomes| == PageCount && 1 <= k <= PageCount
    requires forall i :: 0 <= i < k - 1 ==> Succeeds(outcomes[i])
    requires !Succeeds(outcomes[k - 1])
    ensures Run(outcomes, extract) == Progress(outcomes, k - 1) + [Requested(k, RequestFor(k))]
  {
    assert LeadingSuccesses(outcomes) == k - 1;
  }

  /** A run in which every request succeeds: the five stages, then the
      metadata file. */
  lemma RunCompleted(outcomes: seq<FetchOutcome>, extract: PageExtractor)
    requires |outcomes| == PageCount
    requires forall i :: 0 <= i < PageCount ==> Succeeds(outcomes[i])
    ensures Run(outcomes, extract)
            == Progress(outcomes, PageCount)
               + [SavedMetadata(MetadataFileName, AllRecords(Bodies(outcomes, PageCount), extract))]
  {
    assert LeadingSuccesses(outcomes) == PageCount;
  }

  /** The forEach of index.js:208-213: each page's records appended, in page
      order. */
  method CollectMetadata(htmlContent: seq<string>, select: Selector, format: DateFormatter)
    returns (allMetadata: seq<CaseRecord>)
    ensures allMetadata == AllRecords(htmlContent, PageExtraction(select, format))
  {
    allMetadata := [];
    var i := 0;
    while i < |htmlContent|
      invariant 0 <= i <= |htmlContent|
      invariant allMetadata == AllRecords(htmlContent[..i], PageExtraction(select, format))
    {
      var pageMetadata := ExtractMetadata(htmlContent[i], select, format);
      allMetadata := allMetadata + pageMetadata;
      i := i + 1;
      assert htmlContent[..i][..i - 1] == htmlContent[..i - 1];
    }
    assert htmlContent[..i] == htmlContent;
  }

  // ---------------------------------------------------------------------
  // What a run writes and requests

  /** The page numbers 1..n, in order. */
  function PagesUpTo(n: nat): (pages: seq<nat>)
    ensures |pages| == n
    ensures forall i :: 0 <= i < n ==> pages[i] == i + 1
  {
    if n == 0 then [] else PagesUpTo(n - 1) + [n]
  }

  /** The pages requested, in order. */
  function RequestedPages(effects: seq<Effect>): seq<nat> {
    if effects == [] then []
    else RequestedPages(effects[..|effects| - 1])
         + match effects[|effects| - 1]
           case Requested(page, _) => [page]
           case _ => []
  }

  /** The HTML files saved, as (file name, content), in order. */
  function SavedPages(effects: seq<Effect>): seq<(string, string)> {
    if effects == [] then []
    else SavedPages(effects[..|effects| - 1])
         + match effects[|effects| - 1]
           case SavedHtml(name, html) => [(name, html)]
           case _ => []
  }

  /** The metadata files saved, as (file name, records), in order. */
  function SavedMetadataFiles(effects: seq<Effect>): seq<(string, seq<CaseRecord>)> {
    if effects == [] then []
    else SavedMetadataFiles(effects[..|effects| - 1])
         + match effects[|effects| - 1]
           case SavedMetadata(name, records) => [(name, records)]
           case _ => []
  }

  /** Appending one effect extends exactly the projection it belongs to. */
  lemma AppendOne(a: seq<Effect>, e: Effect)
    ensures RequestedPages(a + [e]) == RequestedPages(a) + (if e.Requested? then [e.page] else [])
    ensures SavedPages(a + [e]) == SavedPages(a) + (if e.SavedHtml? then [(e.fileName, e.html)] else [])
    ensures SavedMetadataFiles(a + [e])
            == SavedMetadataFiles(a) + (if e.SavedMetadata? then [(e.fileName, e.records)] else [])
  {
    assert (a + [e])[..|a + [e]| - 1] == a;
  }

  /** The first n stages request pages 1..n and save pages 1..n with their
      bodies, and write no metadata. */
  lemma ProgressProjections(outcomes: seq<FetchOutcome>, n: nat)
    requires n <= |outcomes| && n <= PageCount
    requires forall i :: 0 <= i < n ==> Succeeds(outcomes[i])
    ensures RequestedPages(Progress(outcomes, n)) == PagesUpTo(n)
    ensures |SavedPages(Progress(outcomes, n))| == n
    ensures forall i :: 0 <= i < n ==>
              SavedPages(Progress(outcomes, n))[i] == (PageFileName(i + 1), Bodies(outcomes, n)[i])
    ensures SavedMetadataFiles(Progress(outcomes, n)) == []
  {
    ProgressRequests(outcomes, n);
    ProgressSaves(outcomes, n);
    ProgressWritesNoMetadata(outcomes, n);
  }

  /** Stage n appends its request, then its save. */
  lemma ProgressStep(outcomes: seq<FetchOutcome>, n: nat)
    requires 0 < n <= |outcomes| && n <= PageCount
    requires forall i :: 0 <= i < n ==> Succeeds(outcomes[i])
    ensures RequestedPages(Progress(outcomes, n)) == RequestedPages(Progress(outcomes, n - 1)) + [n]
    ensures SavedPages(Progress(outcomes, n))
            == SavedPages(Progress(outcomes, n - 1)) + [(PageFileName(n), outcomes[n - 1].response.body)]
    ensures SavedMetadataFiles(Progress(outcomes, n)) == SavedMetadataFiles(Progress(outcomes, n - 1))
  {
    var requested := Progress(outcomes, n - 1) + [Requested(n, RequestFor(n))];
    var saved := SavedHtml(PageFileName(n), outcomes[n - 1].response.body);
    assert Progress(outcomes, n) == requested + [saved];
    AppendOne(Progress(outcomes, n - 1), Requested(n, RequestFor(n)));
    AppendOne(requested, saved);
  }

  lemma {:induction false} ProgressRequests(outcomes: seq<FetchOutcome>, n: nat)
    requires n <= |outcomes| && n <= PageCount
    requires forall i :: 0 <= i < n ==> Succeeds(outcomes[i])
    ensures RequestedPages(Progress(outcomes, n)) == PagesUpTo(n)
  {
    if n > 0 {
      ProgressStep(outcomes, n);
      ProgressRequests(outcomes, n - 1);
    }
  }

  lemma {:induction false} ProgressSaves(outcomes: seq<FetchOutcome>, n: nat)
    requires n <= |outcomes| && n <= PageCount
    requires forall i :: 0 <= i < n ==> Succeeds(outcomes[i])
    ensures |SavedPages(Progress(outcomes, n))| == n
    ensures forall i :: 0 <= i < n ==>
              SavedPages(Progress(outcomes, n))[i] == (PageFileName(i + 1), Bodies(outcomes, n)[i])
  {
    if n > 0 {
      ProgressStep(outcomes, n);
      ProgressSaves(outcomes, n - 1);
    }
  }

  lemma {:induction false} ProgressWritesNoMetadata(outcomes: seq<FetchOutcome>, n: nat)
    requires n <= |outcomes| && n <= PageCount
    requires forall i :: 0 <= i < n ==> Succeeds(outcomes[i])
    ensures SavedMetadataFiles(Progress(outcomes, n)) == []
  {
    if n > 0 {
      ProgressStep(outcomes, n);
      ProgressWritesNoMetadata(outcomes, n - 1);
    }
  }

  /** Projections of a run, in terms of n, the number of leading successes. */
  lemma RunProjections(outcomes: seq<FetchOutcome>, extract: PageExtractor)
    requires |outcomes| == PageCount
    ensures var n := LeadingSuccesses(outcomes);
            && RequestedPages(Run(outcomes, extract))
               == PagesUpTo(n) + (if n < PageCount then [n + 1] else [])
            && SavedPages(Run(outcomes, extract)) == SavedPages(Progress(outcomes, n))
            && SavedMetadataFiles(Run(outcomes, extract))
               == if n < PageCount then []
                  else [(MetadataFileName, AllRecords(Bodies(outcomes, n), extract))]
  {
    RunRequests(outcomes, extract);
    RunSaves(outcomes, extract);
    RunMetadata(outcomes, extract);
  }

  lemma RunRequests(outcomes: seq<FetchOutcome>, extract: PageExtractor)
    requires |outcomes| == PageCount
    ensures var n := LeadingSuccesses(outcomes);
            RequestedPages(Run(outcomes, extract))
            == PagesUpTo(n) + (if n < PageCount then [n + 1] else [])
  {
    var n := LeadingSuccesses(outcomes);
    ProgressRequests(outcomes, n);
    AppendOne(Progress(outcomes, n), FinalEffect(outcomes, extract));
  }

  lemma RunSaves(outcomes: seq<FetchOutcome>, extract: PageExtractor)
    requires |outcomes| == PageCount
    ensures SavedPages(Run(outcomes, extract)) == SavedPages(Progress(outcomes, LeadingSuccesses(outcomes)))
  {
    AppendOne(Progress(outcomes, LeadingSuccesses(outcomes)), FinalEffect(outcomes, extract));
  }

  lemma RunMetadata(outcomes: seq<FetchOutcome>, extract: PageExtractor)
    requires |outcomes| == PageCount
    ensures var n := LeadingSuccesses(outcomes);
            SavedMetadataFiles(Run(outcomes, extract))
            == if n < PageCount then []
               else [(MetadataFileName, AllRecords(Bodies(outcomes, n), extract))]
  {
    var n := LeadingSuccesses(outcomes);
    ProgressWritesNoMetadata(outcomes, n);
    AppendOne(Progress(outcomes, n), FinalEffect(outcomes, extract));
  }

  /** If request k + 1 is the first to fail: pages 1..k + 1 were requested
      and none after; pages 1..k were saved, in order, with their bodies; no
      metadata file was written. */
  lemma AbortedRun(outcomes: seq<FetchOutcome>, extract: PageExtractor, k: nat)
    requires |outcomes| == PageCount && k < PageCount
    requires forall i :: 0 <= i < k ==> Succeeds(outcomes[i])
    requires !Succeeds(outcomes[k])
    ensures RequestedPages(Run(outcomes, extract)) == PagesUpTo(k + 1)
    ensures |SavedPages(Run(outcomes, extract))| == k
    ensures forall i :: 0 <= i < k ==>
              SavedPages(Run(outcomes, extract))[i] == (PageFileName(i + 1), Bodies(outcomes, k)[i])
    ensures SavedMetadataFiles(Run(outcomes, extract)) == []
  {
    assert LeadingSuccesses(outcomes) == k;
    RunRequests(outcomes, extract);
    RunSaves(outcomes, extract);
    RunMetadata(outcomes, extract);
    ProgressSaves(outcomes, k);
  }

  /** If all five requests succeed: pages 1..5 were requested and saved, in
      order, with their bodies, and exactly one metadata file was written,
      holding the records of the five pages in page order. */
  lemma CompletedRun(outcomes: seq<FetchOutcome>, extract: PageExtractor)
    requires |outcomes| == PageCount
    requires forall i :: 0 <= i < PageCount ==> Succeeds(outcomes[i])
    ensures RequestedPages(Run(outcomes, extract)) == PagesUpTo(PageCount)
    ensures |SavedPages(Run(outcomes, extract))| == PageCount
    ensures forall i :: 0 <= i < PageCount ==>
              SavedPages(Run(outcomes, extract))[i] == (PageFileName(i + 1), outcomes[i].response.body)
    ensures SavedMetadataFiles(Run(outcomes, extract))
            == [(MetadataFileName, AllRecords(Bodies(outcomes, PageCount), extract))]
  {
    assert LeadingSuccesses(outcomes) == PageCount;
    RunRequests(outcomes, extract);
    RunSaves(outcomes, extract);
    RunMetadata(outcomes, extract);
    ProgressSaves(outcomes, PageCount);
  }

  /** All or nothing: the metadata file is written at most once, and it is
      written exactly when all five requests succeed. */
  lemma MetadataAllOrNothing(outcomes: seq<FetchOutcome>, extract: PageExtractor)
    requires |outcomes| == PageCount
    ensures |SavedMetadataFiles(Run(outcomes, extract))| <= 1
    ensures SavedMetadataFiles(Run(outcomes, extract)) != []
            <==> forall i :: 0 <= i < PageCount ==> Succeeds(outcomes[i])
  {
    var k := LeadingSuccesses(outcomes);
    if k < PageCount {
      AbortedRun(outcomes, extract, k);
    } else {
      CompletedRun(outcomes, extract);
    }
  }

  /** Stage k of the first n is at positions 2(k - 1) (the request) and
      2(k - 1) + 1 (the save). */
  lemma {:induction false} ProgressAt(outcomes: seq<FetchOutcome>, n: nat, i: nat)
    requires n <= |outcomes| && n <= PageCount
    requires forall i :: 0 <= i < n ==> Succeeds(outcomes[i])
    requires i < n
    ensures |Progress(outcomes, n)| == 2 * n
    ensures Progress(outcomes, n)[2 * i] == Requested(i + 1, RequestFor(i + 1))
    ensures Progress(outcomes, n)[2 * i + 1] == SavedHtml(PageFileName(i + 1), Bodies(outcomes, n)[i])
  {
    if i < n - 1 {
      ProgressAt(outcomes, n - 1, i);
    } else if n > 1 {
      ProgressAt(outcomes, n - 1, 0);
    }
  }

  /** Page p is requested only once page p - 1 has succeeded, and right
      after page p - 1 was saved; the run starts with the request for page
      1; every request is the fixed request for its page. */
  lemma RequestFollowsSave(outcomes: seq<FetchOutcome>, extract: PageExtractor, j: nat)
    requires |outcomes| == PageCount
    requires j < |Run(outcomes, extract)|
    requires Run(outcomes, extract)[j].Requested?
    ensures var e := Run(outcomes, extract)[j];
            1 <= e.page <= PageCount && e.request == RequestFor(e.page) && (j == 0 <==> e.page == 1)
    ensures var e := Run(outcomes, extract)[j];
            e.page > 1 ==>
              && j > 0 && Succeeds(outcomes[e.page - 2])
              && Run(outcomes, extract)[j - 1]
                 == SavedHtml(PageFileName(e.page - 1), outcomes[e.page - 2].response.body)
  {
    var n := LeadingSuccesses(outcomes);
    RunShape(outcomes, extract);
    ProgressLength(outcomes, n);
    if j < 2 * n {
      ProgressRequestAt(outcomes, n, j);
    } else if n > 0 {
      ProgressLast(outcomes, n);
    }
  }

  /** Among the first n stages, the request for page p sits at position
      2(p - 1), right after the save of page p - 1. */
  lemma {:induction false} ProgressRequestAt(outcomes: seq<FetchOutcome>, n: nat, j: nat)
    requires n <= |outcomes| && n <= PageCount
    requires forall i :: 0 <= i < n ==> Succeeds(outcomes[i])
    requires j < |Progress(outcomes, n)| && Progress(outcomes, n)[j].Requested?
    ensures var p := Progress(outcomes, n)[j].page;
            && 1 <= p <= n && j == 2 * (p - 1)
            && Progress(outcomes, n)[j].request == RequestFor(p)
            && (p > 1 ==> && Succeeds(outcomes[p - 2])
                          && Progress(outcomes, n)[j - 1]
                             == SavedHtml(PageFileName(p - 1), outcomes[p - 2].response.body))
  {
    ProgressLength(outcomes, n);
    ProgressLength(outcomes, n - 1);
    if j < 2 * (n - 1) {
      ProgressRequestAt(outcomes, n - 1, j);
    } else if n > 1 {
      ProgressLast(outcomes, n - 1);
    }
  }

  /** The last effect of n > 0 stages is the save of page n. */
  lemma ProgressLast(outcomes: seq<FetchOutcome>, n: nat)
    requires 0 < n <= |outcomes| && n <= PageCount
    requires forall i :: 0 <= i < n ==> Succeeds(outcomes[i])
    ensures |Progress(outcomes, n)| == 2 * n
    ensures Progress(outcomes, n)[2 * n - 1] == SavedHtml(PageFileName(n), outcomes[n - 1].response.body)
  {
    ProgressLength(outcomes, n);
  }

  /** A run is the first n stages, then one final effect: the request that
      failed, or the metadata file. */
  lemma RunShape(outcomes: seq<FetchOutcome>, extract: PageExtractor)
    requires |outcomes| == PageCount
    ensures var n := LeadingSuccesses(outcomes);
            && |Run(outcomes, extract)| == 2 * n + 1
            && (forall j :: 0 <= j < 2 * n ==> Run(outcomes, extract)[j] == Progress(outcomes, n)[j])
            && (Run(outcomes, extract)[2 * n].Requested? <==> n < PageCount)
            && (n < PageCount ==> Run(outcomes, extract)[2 * n] == Requested(n + 1, RequestFor(n + 1)))
  {
    var n := LeadingSuccesses(outcomes);
    ProgressLength(outcomes, n);
    if n < PageCount {
      RunAborted(outcomes, extract, n + 1);
    } else {
      RunCompleted(outcomes, extract);
    }
  }

  lemma {:induction false} ProgressLength(outcomes: seq<FetchOutcome>, n: nat)
    requires n <= |outcomes| && n <= PageCount
    requires forall i :: 0 <= i < n ==> Succeeds(outcomes[i])
    ensures |Progress(outcomes, n)| == 2 * n
  {
    if n > 0 {
      ProgressLength(outcomes, n - 1);
    }
  }

  lemma {:induction false} ProgressDependsOnPrefix(outcomes: seq<FetchOutcome>, other: seq<FetchOutcome>, n: nat)
    requires n <= |outcomes| && n <= |other| && n <= PageCount
    requires outcomes[..n] == other[..n]
    requires forall i :: 0 <= i < n ==> Succeeds(outcomes[i])
    ensures forall i :: 0 <= i < n ==> Succeeds(other[i])
    ensures Progress(outcomes, n) == Progress(other, n)
  {
    assert forall i :: 0 <= i < n ==> other[i] == outcomes[..n][i];
    if n > 0 {
      assert outcomes[..n - 1] == outcomes[..n][..n - 1] && other[..n - 1] == other[..n][..n - 1];
      ProgressDependsOnPrefix(outcomes, other, n - 1);
      assert outcomes[n - 1] == outcomes[..n][n - 1];
    }
  }

  /** Nothing after the first failure is requested: what later requests
      would have delivered does not change a single effect of the run. */
  lemma LaterOutcomesIgnored(outcomes: seq<FetchOutcome>, other: seq<FetchOutcome>,
                             extract: PageExtractor)
    requires |outcomes| == PageCount && |other| == PageCount
    requires LeadingSuccesses(outcomes) < PageCount
    requires outcomes[..LeadingSuccesses(outcomes) + 1] == other[..LeadingSuccesses(outcomes) + 1]
    ensures Run(outcomes, extract) == Run(other, extract)
  {
    var k := LeadingSuccesses(outcomes);
    assert outcomes[..k] == outcomes[..k + 1][..k] && other[..k] == other[..k + 1][..k];
    ProgressDependsOnPrefix(outcomes, other, k);
    assert other[k] == outcomes[..k + 1][k];
    RunAborted(outcomes, extract, k + 1);
    RunAborted(other, extract, k + 1);
  }

  // ---------------------------------------------------------------------
  // The aggregated metadata

  lemma {:induction false} AllRecordsAppend(a: seq<string>, b: seq<string>, extract: PageExtractor)
    ensures AllRecords(a + b, extract) == AllRecords(a, extract) + AllRecords(b, extract)
    decreases |b|
  {
    if b == [] {
      assert a + b == a;
    } else {
      var b' := b[..|b| - 1];
      assert (a + b)[..|a + b| - 1] == a + b';
      assert (a + b)[|a + b| - 1] == b[|b| - 1];
      AllRecordsAppend(a, b', extract);
    }
  }

  /** Page order, then document order: the records of page p come after
      those of every earlier page and before those of every later page, and
      are that page's records, one per container, in document order. */
  lemma AllRecordsPageOrder(pages: seq<string>, extract: PageExtractor, p: nat)
    requires p < |pages|
    ensures AllRecords(pages, extract)
            == AllRecords(pages[..p], extract)
               + extract(pages[p])
               + AllRecords(pages[p + 1..], extract)
  {
    var front := pages[..p + 1];
    assert pages == front + pages[p + 1..];
    AllRecordsAppend(front, pages[p + 1..], extract);
    assert front[..|front| - 1] == pages[..p];
  }

  /** The j-th container of page p yields the record at offset j after all
      records of the earlier pages. */
  lemma AllRecordsAt(pages: seq<string>, extract: PageExtractor, p: nat, j: nat)
    requires p < |pages| && j < |extract(pages[p])|
    ensures var offset := |AllRecords(pages[..p], extract)|;
            && offset + j < |AllRecords(pages, extract)|
            && AllRecords(pages, extract)[offset + j] == extract(pages[p])[j]
  {
    AllRecordsPageOrder(pages, extract, p);
  }

  /** The metadata file's record for container j of page p is the record
      built from that container. */
  lemma MetadataRecordAt(pages: seq<string>, select: Selector, format: DateFormatter, p: nat, j: nat)
    requires p < |pages| && j < |select(pages[p])|
    ensures var extract := PageExtraction(select, format);
            var offset := |AllRecords(pages[..p], extract)|;
            && offset + j < |AllRecords(pages, extract)|
            && AllRecords(pages, extract)[offset + j] == BuildRecord(select(pages[p])[j], format)
  {
    AllRecordsAt(pages, PageExtraction(select, format), p, j);
    RecordsAt(select(pages[p]), format, j);
  }
}
