/**
 * The `POST` handler of src/app/api/fetch-xhs/route.ts: it resolves the posted share text to a
 * link, fetches the page through the reader proxy and answers with the parsed note, or with an
 * error message and a status code.
 */
module Handler {
  import opened Wrappers
  import opened Resolver
  import opened Fetcher
  import opened Parser

  /** The message of the 400 answer. */
  const InvalidLink := "无效的小红书链接"

  /** The JSON body of an answer: the note itself, or `{ error }`. */
  datatype Payload = Note(content: NoteContent) | Failure(error: string)

  datatype HttpResponse = HttpResponse(status: int, payload: Payload)

  /** `POST` for a request whose JSON body carries the string `input` as `url`. */
  method Post(input: string, fetch: string -> FetchOutcome) returns (resp: HttpResponse)
    ensures resp.status == 200 || resp.status == 400 || resp.status == 500
    ensures resp.status == 400 <==> ExtractXHSUrl(input).None?
    ensures ExtractXHSUrl(input).None? ==> resp.payload == Failure(InvalidLink)
    ensures ExtractXHSUrl(input).Some? ==>
      var outcome := fetch(ProxyUrl(ExtractXHSUrl(input).value));
      if outcome.Response? && IsOkStatus(outcome.status) then
        resp == HttpResponse(200, Note(NoteOf(outcome.body)))
      else
        resp == HttpResponse(500, Failure(RetrievalFailed))
  {
    var extractedUrl := ExtractXHSUrl(input);
    // The resolver never yields an empty link, so `!extractedUrl` is exactly "no link".
    if extractedUrl.None? {
      return HttpResponse(400, Failure(InvalidLink));
    }
    var html := FetchRawContent(extractedUrl.value, fetch);
    if html.Err? {
      // The catch block answers 500 with the message of the error that reached it.
      return HttpResponse(500, Failure(html.error));
    }
    var content := ParseXHSContent(html.value);
    resp := HttpResponse(200, Note(content));
  }
}
