/**
 * checkStatusAndParse (index.js:40-43): a response whose status is not an
 * ok status raises "Status Code Error: <status>" and its body is never read;
 * an ok response yields its body text.
 */
module Status {
  import opened Wrappers

  /** The parts of a fetch Response the scraper looks at. */
  datatype HttpResponse = HttpResponse(status: int, body: string)

  /** What can make a page stage throw: the fetch promise rejecting (no
      response at all), or the status check raising. */
  datatype FetchError = RequestRejected | StatusCodeError(status: int)

  /** An ok status, as section 2.2.3 (Statuses) of the WHATWG Fetch Standard
      defines it and `response.ok` reports it: 200 to 299, inclusive. */
  predicate IsOkStatus(status: int) {
    200 <= status <= 299
  }

  function CheckStatusAndParse(response: HttpResponse): (r: Result<string, FetchError>)
    ensures r.Success? <==> IsOkStatus(response.status)
    ensures r.Success? ==> r.value == response.body
    ensures r.Failure? ==> r.error == StatusCodeError(response.status)
  {
    if !IsOkStatus(response.status) then Failure(StatusCodeError(response.status))
    else Success(response.body)
  }
}
