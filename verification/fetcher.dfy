/**
 * `fetchRawXiaohongshuContent` of src/app/api/fetch-xhs/route.ts: it strips the scheme from the
 * resolved link, asks the r.jina.ai reader proxy for a text rendering of the page and turns every
 * failure into one generic message.  The network is a parameter: `fetch` gives, for the URL that
 * is requested, what the request ended with.
 */
module Fetcher {
  import opened Wrappers
  import opened Text
  import opened Resolver

  const ProxyBase := "https://r.jina.ai/"

  /** The one message every retrieval failure ends with. */
  const RetrievalFailed := "获取小红书内容失败，请检查链接是否有效"

  /** The message of the timeout error the inner handler raises, which never reaches the caller. */
  const TimeoutMessage := "请求超时，请稍后重试"

  /** How one request to the proxy ended. */
  datatype FetchOutcome =
    | Response(status: int, body: string)  // the server answered with this status and body
    | Abort                                 // the 15-second timer aborted the request
    | NetworkFailure                        // any other rejection of the request

  /** `response.ok`. */
  predicate IsOkStatus(status: int) {
    200 <= status <= 299
  }

  /** What the inner handler throws before the outer one rewrites it. */
  datatype FetchError = Timeout | UpstreamStatus(code: int) | Network

  /** The inner error for an outcome, or `None` when the body is returned. */
  function InnerFailure(outcome: FetchOutcome): (r: Option<FetchError>)
    ensures r == Some(Timeout) <==> outcome.Abort?
    ensures r.None? <==> outcome.Response? && IsOkStatus(outcome.status)
    ensures outcome.Response? && !IsOkStatus(outcome.status) ==> r == Some(UpstreamStatus(outcome.status))
  {
    match outcome
    case Response(status, _) => if IsOkStatus(status) then None else Some(UpstreamStatus(status))
    case Abort => Some(Timeout)
    case NetworkFailure => Some(Network)
  }

  /** The URL requested from the proxy for a resolved link: the proxy base followed by the link
      with one leading scheme removed. */
  function ProxyUrl(url: string): (r: string)
    ensures StartsWith(url, Https) ==> r == ProxyBase + url[|Https|..]
    ensures StartsWith(url, Http) ==> r == ProxyBase + url[|Http|..]
    ensures !HasScheme(url) ==> r == ProxyBase + url
  {
    ProxyBase + url[SchemeLengthAt(url, 0)..]
  }

  /** `fetchRawXiaohongshuContent`: the body of a successful response, or the generic failure
      message whatever went wrong (a timeout included). */
  method FetchRawContent(url: string, fetch: string -> FetchOutcome) returns (r: Result<string, string>)
    ensures r.Ok? <==> fetch(ProxyUrl(url)).Response? && IsOkStatus(fetch(ProxyUrl(url)).status)
    ensures r.Ok? ==> r.value == fetch(ProxyUrl(url)).body
    ensures r.Err? ==> r.error == RetrievalFailed
    ensures fetch(ProxyUrl(url)).Abort? ==> r.Err? && r.error != TimeoutMessage
  {
    var cleanUrl := url;
    if StartsWith(url, Http) || StartsWith(url, Https) {
      // url.replace(/^https?:\/\//, '')
      cleanUrl := url[SchemeLengthAt(url, 0)..];
    }
    var proxyUrl := ProxyBase + cleanUrl;
    var outcome := fetch(proxyUrl);
    var failure := InnerFailure(outcome);
    if failure.Some? {
      // The outer handler replaces whatever the inner one threw, the timeout message included.
      assert RetrievalFailed[0] != TimeoutMessage[0];
      r := Err(RetrievalFailed);
    } else {
      r := Ok(outcome.body);
    }
  }

  /** Exactly one scheme is removed, whichever of the two it is; a second scheme stays. */
  lemma ProxyUrlStripsOneScheme(scheme: string, bare: string)
    requires scheme == Http || scheme == Https
    ensures ProxyUrl(scheme + bare) == ProxyBase + bare
  {
    assert HasAt(scheme + bare, 0, scheme) by {
      assert (scheme + bare)[..|scheme|] == scheme;
    }
    if scheme == Http {
      assert !HasAt(scheme + bare, 0, Https) by {
        assert (scheme + bare)[4] == ':';
      }
    }
    assert (scheme + bare)[|scheme|..] == bare;
  }

  /** The scheme that was removed, put back in front of the proxy path, gives the link back. */
  lemma ProxyUrlRoundTrip(url: string)
    ensures |ProxyUrl(url)| >= |ProxyBase|
    ensures url[..SchemeLengthAt(url, 0)] + ProxyUrl(url)[|ProxyBase|..] == url
  {
    var n := SchemeLengthAt(url, 0);
    assert ProxyUrl(url)[|ProxyBase|..] == url[n..];
    assert url[..n] + url[n..] == url;
  }
}
