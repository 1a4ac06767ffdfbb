/** `RealRagProvider`: the three HTTP calls to a RAG backend (`get_config`,
    `configure`, `predict`), their status and error classification, and the
    conversion of the backend's cumulative answers into deltas.

    The network is an oracle: `fetch` maps the request the code would send to
    what the runtime hands back (a response, or the error it throws; a fired
    timeout is an error named `AbortError`). Decoding a JSON body and base64
    are oracles too. */
module RealRagProvider {
  import opened Common
  import opened RagTypes
  import RagConfig
  import SseParser

  const AuthFailedMessage := "Authentication failed"
  const ContentTypeHeader := "Content-Type"
  const JsonContentType := "application/json"

  datatype HttpMethod = Get | Post

  /** What a request carries: verb, target, headers and the JSON body. */
  datatype RequestBody = NoBody | ConfigureBody(configure: ConfigureRequest) | PredictBody(predict: PredictRequest)

  datatype HttpRequest = HttpRequest(verb: HttpMethod, url: string, headers: map<string, string>, body: RequestBody)

  /** A response; `body` is whatever reading it yields (a decoded JSON value,
      or the chunks of a streamed body). */
  datatype HttpResponse<B> = HttpResponse(status: int, statusText: string, body: B)

  /** The chunks `response.body` delivers and how reading it ended. */
  datatype StreamBody = StreamBody(chunks: seq<string>, readEnd: SseParser.ReadEnd)

  // ---------------------------------------------------------------------------
  // Requests and status checks

  /** The headers of every call: the server's Basic header, if any, and the
      JSON content type. */
  function Headers(reg: RagConfig.Registry, url: string, base64: string -> string): (h: map<string, string>)
    ensures ContentTypeHeader in h && h[ContentTypeHeader] == JsonContentType
    ensures "Authorization" in h <==> url in reg.credentials
    ensures url in reg.credentials ==>
              h["Authorization"] == RagConfig.GetAuthHeader(reg, url, base64)["Authorization"]
    ensures h.Keys <= {"Authorization", ContentTypeHeader}
  {
    RagConfig.GetAuthHeader(reg, url, base64)[ContentTypeHeader := JsonContentType]
  }

  predicate Ok(status: int) {
    200 <= status <= 299
  }

  /** The two checks made on every response, in their order: 401 first, then
      any other status outside 2xx. */
  function StatusError(status: int, statusText: string): (r: Option<Error>)
    ensures r.None? <==> Ok(status)
    ensures status == 401 ==> r == Some(Fail(AuthFailedMessage))
    ensures !Ok(status) && status != 401 ==>
              r == Some(Fail("HTTP " + IntToString(status) + ": " + statusText))
  {
    if status == 401 then Some(Fail(AuthFailedMessage))
    else if !Ok(status) then Some(Fail("HTTP " + IntToString(status) + ": " + statusText))
    else None
  }

  /** The catch block of `getConfig` and `configure`: a timeout becomes a
      message naming the URL, anything else is rethrown as is. */
  function OnTimeout(e: Error, timeoutMessage: string): (r: Error)
    ensures e.name == AbortError ==> r == Fail(timeoutMessage)
    ensures e.name != AbortError ==> r == e
  {
    if e.name == AbortError then Fail(timeoutMessage) else e
  }

  /** Status check then body decoding, for the two non-streaming calls. */
  function Receive<T>(response: Result<HttpResponse<Result<T, Error>>, Error>): (r: Result<T, Error>)
    ensures response.Failure? ==> r == Failure(response.error)
    ensures response.Success? && !Ok(response.value.status) ==>
              r == Failure(StatusError(response.value.status, response.value.statusText).value)
    ensures response.Success? && Ok(response.value.status) ==> r == response.value.body
  {
    match response
    case Failure(e) => Failure(e)
    case Success(resp) =>
      match StatusError(resp.status, resp.statusText)
      case Some(e) => Failure(e)
      case None => resp.body
  }

  // ---------------------------------------------------------------------------
  // getConfig and configure

  const MissingConfigUrlMessage := "backendUrl is required for RealRagProvider.getConfig()"
  const MissingPredictUrlMessage := "backendUrl is required for RealRagProvider.predict()"
  const NoMasterMessage := "Master URL not configured"

  function GetConfigRequest(reg: RagConfig.Registry, url: string, base64: string -> string): HttpRequest {
    HttpRequest(Get, url + "/get_config", Headers(reg, url, base64), NoBody)
  }

  /** `getConfig(backendUrl)`: the modes a backend serves. */
  function GetConfig(reg: RagConfig.Registry, backendUrl: Option<string>,
                     fetch: HttpRequest -> Result<HttpResponse<Result<seq<Mode>, Error>>, Error>,
                     base64: string -> string): (r: Result<seq<Mode>, Error>)
    ensures !Given(backendUrl) ==> r == Failure(Fail(MissingConfigUrlMessage))
    ensures r.Failure? ==> r.error.name != AbortError
    ensures Given(backendUrl) ==>
              var resp := fetch(GetConfigRequest(reg, backendUrl.value, base64));
              var timeout := "Timeout fetching config from " + backendUrl.value;
              && (resp.Success? && Ok(resp.value.status) && resp.value.body.Success? ==> r == resp.value.body)
              && (resp.Success? && Ok(resp.value.status) && resp.value.body.Failure? ==>
                    r == Failure(OnTimeout(resp.value.body.error, timeout)))
              && (resp.Success? && !Ok(resp.value.status) ==>
                    r == Failure(StatusError(resp.value.status, resp.value.statusText).value))
              && (resp.Failure? && resp.error.name == AbortError ==> r == Failure(Fail(timeout)))
              && (resp.Failure? && resp.error.name != AbortError ==> r == Failure(resp.error))
  {
    if !Given(backendUrl) then Failure(Fail(MissingConfigUrlMessage))
    else
      var url := backendUrl.value;
      match Receive(fetch(GetConfigRequest(reg, url, base64)))
      case Success(modes) => Success(modes)
      case Failure(e) => Failure(OnTimeout(e, "Timeout fetching config from " + url))
  }

  function ConfigureRequestTo(reg: RagConfig.Registry, master: string, params: ConfigureRequest,
                              base64: string -> string): HttpRequest {
    HttpRequest(Post, master + "/configure", Headers(reg, master, base64), ConfigureBody(params))
  }

  /** `configure(params)`: asks the master server to pick a mode. */
  function Configure(reg: RagConfig.Registry, params: ConfigureRequest,
                     fetch: HttpRequest -> Result<HttpResponse<Result<Mode, Error>>, Error>,
                     base64: string -> string): (r: Result<Mode, Error>)
    ensures !Truthy(RagConfig.GetMasterUrl(reg)) ==> r == Failure(Fail(NoMasterMessage))
    ensures r.Failure? ==> r.error.name != AbortError
    ensures var master := RagConfig.GetMasterUrl(reg);
      var resp := fetch(ConfigureRequestTo(reg, master, params, base64));
      var timeout := "Timeout during configure at " + master;
      Truthy(master) ==>
        && (resp.Success? && Ok(resp.value.status) && resp.value.body.Success? ==> r == resp.value.body)
        && (resp.Success? && Ok(resp.value.status) && resp.value.body.Failure? ==>
              r == Failure(OnTimeout(resp.value.body.error, timeout)))
        && (resp.Success? && !Ok(resp.value.status) ==>
              r == Failure(StatusError(resp.value.status, resp.value.statusText).value))
        && (resp.Failure? && resp.error.name == AbortError ==> r == Failure(Fail(timeout)))
        && (resp.Failure? && resp.error.name != AbortError ==> r == Failure(resp.error))
  {
    var master := RagConfig.GetMasterUrl(reg);
    if !Truthy(master) then Failure(Fail(NoMasterMessage))
    else
      match Receive(fetch(ConfigureRequestTo(reg, master, params, base64)))
      case Success(mode) => Success(mode)
      case Failure(e) => Failure(OnTimeout(e, "Timeout during configure at " + master))
  }

  // ---------------------------------------------------------------------------
  // predict: cumulative answers to deltas

  /** `s.slice(from)` for a non-negative start: empty past the end. */
  function SliceFrom(s: string, from: nat): (r: string)
    ensures from <= |s| ==> r == s[from..]
    ensures from >= |s| ==> r == ""
  {
    if from <= |s| then s[from..] else ""
  }

  /** A converted chunk is yielded when it has text or carries contexts (an
      empty list of contexts is still yielded). */
  predicate Worth(c: RagChunk) {
    c.response != "" || c.contexts.Some?
  }

  /** The `for await` loop of `predict` from baseline `last` on: each chunk
      is cut to the part beyond the previous answer's length, the baseline
      becomes the new answer whether or not the chunk is yielded. */
  function Deltas(last: string, chunks: seq<RagChunk>): (out: seq<RagChunk>)
    ensures |out| <= |chunks|
    ensures forall k :: 0 <= k < |out| ==> Worth(out[k])
    decreases |chunks|
  {
    if chunks == [] then []
    else
      var c := chunks[0];
      var delta := RagChunk(SliceFrom(c.response, |last|), c.contexts);
      (if Worth(delta) then [delta] else []) + Deltas(c.response, chunks[1..])
  }

  /** How a failed `predict` stream ends after the catch block: a closed
      connection is a normal end, a timeout names the URL, anything else is
      rethrown. */
  function PredictEnd(end: End, url: string): (r: End)
    ensures end.Completed? ==> r == Completed
    ensures end.Failed? && ClosedByPeer(end.error) ==> r == Completed
    ensures end.Failed? && !ClosedByPeer(end.error) && end.error.name == AbortError ==>
              r == Failed(Fail("Timeout during predict at " + url))
    ensures end.Failed? && !ClosedByPeer(end.error) && end.error.name != AbortError ==> r == end
  {
    match end
    case Completed => Completed
    case Failed(e) =>
      if ClosedByPeer(e) then Completed
      else if e.name == AbortError then Failed(Fail("Timeout during predict at " + url))
      else Failed(e)
  }

  function PredictRequestTo(reg: RagConfig.Registry, url: string, params: PredictRequest,
                            base64: string -> string): HttpRequest {
    HttpRequest(Post, url + "/predict", Headers(reg, url, base64), PredictBody(params))
  }

  /** `predict(params, backendUrl)`, drained: the chunks yielded, then how
      the generator ended. Errors thrown before the body is read (by `fetch`
      or the status checks) go through the same catch block as read and
      parse errors. */
  function Predict(reg: RagConfig.Registry, params: PredictRequest, backendUrl: Option<string>,
                   fetch: HttpRequest -> Result<HttpResponse<StreamBody>, Error>,
                   decode: string -> Result<Option<RagChunk>, Error>,
                   base64: string -> string): (d: Drained<RagChunk>)
    ensures !Given(backendUrl) ==> d == Drained([], Failed(Fail(MissingPredictUrlMessage)))
    ensures forall k :: 0 <= k < |d.items| ==> Worth(d.items[k])
  {
    if !Given(backendUrl) then Drained([], Failed(Fail(MissingPredictUrlMessage)))
    else
      var url := backendUrl.value;
      match fetch(PredictRequestTo(reg, url, params, base64))
      case Failure(e) => Drained([], PredictEnd(Failed(e), url))
      case Success(resp) =>
        match StatusError(resp.status, resp.statusText)
        case Some(e) => Drained([], PredictEnd(Failed(e), url))
        case None =>
          var parsed := SseParser.Decode(resp.body.chunks, resp.body.readEnd, decode);
          Drained(Deltas("", parsed.items), PredictEnd(parsed.end, url))
  }

  // ---------------------------------------------------------------------------
  // Properties of the delta conversion

  /** Position `i`'s baseline: the previous answer, or `last` for the first. */
  function Previous(last: string, chunks: seq<RagChunk>, i: nat): string
    requires i < |chunks|
  {
    if i == 0 then last else chunks[i - 1].response
  }

  /** Reference reading, position by position: chunk `i` becomes the part of
      its answer beyond the previous answer's length, with its contexts. */
  function Candidates(last: string, chunks: seq<RagChunk>): (cs: seq<RagChunk>)
    ensures |cs| == |chunks|
  {
    seq(|chunks|, i requires 0 <= i < |chunks| =>
      RagChunk(SliceFrom(chunks[i].response, |Previous(last, chunks, i)|), chunks[i].contexts))
  }

  /** `filter` by `Worth`. */
  function KeepWorth(cs: seq<RagChunk>): (r: seq<RagChunk>)
    ensures |r| <= |cs|
  {
    if cs == [] then [] else (if Worth(cs[0]) then [cs[0]] else []) + KeepWorth(cs[1..])
  }

  /** The loop yields exactly the worthwhile per-position candidates, in
      order. */
  lemma {:induction false} DeltasMatchReference(last: string, chunks: seq<RagChunk>)
    ensures Deltas(last, chunks) == KeepWorth(Candidates(last, chunks))
    decreases |chunks|
  {
    if chunks != [] {
      var cs := Candidates(last, chunks);
      var tail := Candidates(chunks[0].response, chunks[1..]);
      assert cs[1..] == tail by {
        forall k | 0 <= k < |tail| ensures cs[1..][k] == tail[k] {
          assert Previous(last, chunks, k + 1) == Previous(chunks[0].response, chunks[1..], k);
        }
      }
      DeltasMatchReference(chunks[0].response, chunks[1..]);
    }
  }

  /** A chunk whose answer is no longer than the previous one yields an
      empty delta; without contexts it is dropped, yet it still becomes the
      new baseline. */
  lemma ShorterAnswerIsDropped(last: string, c: RagChunk, rest: seq<RagChunk>)
    requires |c.response| <= |last| && c.contexts.None?
    ensures Deltas(last, [c] + rest) == Deltas(c.response, rest)
  {
    assert ([c] + rest)[1..] == rest;
  }

  /** Each answer extends the one before it. */
  predicate Cumulative(last: string, chunks: seq<RagChunk>) {
    && (forall i :: 0 <= i < |chunks| ==> last <= chunks[i].response)
    && (forall i, j :: 0 <= i <= j < |chunks| ==> chunks[i].response <= chunks[j].response)
  }

  /** The text one chunk contributes is what its answer adds to the
      baseline. */
  lemma HeadText(last: string, c: RagChunk)
    requires last <= c.response
    ensures var delta := RagChunk(SliceFrom(c.response, |last|), c.contexts);
      Text(if Worth(delta) then [delta] else []) == c.response[|last|..]
  {
    var delta := RagChunk(SliceFrom(c.response, |last|), c.contexts);
    if Worth(delta) {
      assert Text([delta]) == delta.response + Text([]);
    }
  }

  lemma PrefixSlices(last: string, mid: string, l: string)
    requires last <= mid <= l
    ensures mid[|last|..] + l[|mid|..] == l[|last|..]
  {
  }

  lemma CumulativeTail(last: string, chunks: seq<RagChunk>)
    requires |chunks| >= 2
    requires Cumulative(last, chunks)
    ensures Cumulative(chunks[0].response, chunks[1..])
    ensures chunks[0].response <= Last(chunks).response
  {
    var tail := chunks[1..];
    assert forall i :: 0 <= i < |tail| ==> tail[i] == chunks[i + 1];
  }

  /** When each answer extends the previous one, the yielded deltas spell
      out exactly what the last answer adds to the baseline. */
  lemma {:induction false} DeltasConcatenate(last: string, chunks: seq<RagChunk>)
    requires chunks != []
    requires Cumulative(last, chunks)
    ensures Text(Deltas(last, chunks)) == Last(chunks).response[|last|..]
    decreases |chunks|
  {
    var c := chunks[0];
    var delta := RagChunk(SliceFrom(c.response, |last|), c.contexts);
    var head := if Worth(delta) then [delta] else [];
    var rest := Deltas(c.response, chunks[1..]);
    assert Deltas(last, chunks) == head + rest;
    TextAppend(head, rest);
    HeadText(last, c);
    if |chunks| == 1 {
      assert rest == [];
    } else {
      CumulativeTail(last, chunks);
      DeltasConcatenate(c.response, chunks[1..]);
      assert Last(chunks[1..]) == Last(chunks);
      PrefixSlices(last, c.response, Last(chunks).response);
    }
  }

  /** From an empty baseline: the deltas concatenate to the final answer. */
  lemma DeltasRebuildLastAnswer(chunks: seq<RagChunk>)
    requires chunks != []
    requires forall i, j :: 0 <= i <= j < |chunks| ==> chunks[i].response <= chunks[j].response
    ensures Text(Deltas("", chunks)) == Last(chunks).response
  {
    DeltasConcatenate("", chunks);
  }

  /** "Hi", "Hi there", "Hi there!" becomes "Hi", " there", "!". */
  lemma HiThereExample()
    ensures Deltas("", [RagChunk("Hi", None), RagChunk("Hi there", None), RagChunk("Hi there!", None)])
         == [RagChunk("Hi", None), RagChunk(" there", None), RagChunk("!", None)]
  {
    var cs := [RagChunk("Hi", None), RagChunk("Hi there", None), RagChunk("Hi there!", None)];
    assert cs[1..] == [RagChunk("Hi there", None), RagChunk("Hi there!", None)];
    assert cs[1..][1..] == [RagChunk("Hi there!", None)];
    assert "Hi there"[2..] == " there";
    assert "Hi there!"[8..] == "!";
  }

  /** A repeated answer with contexts still yields a chunk, with empty text,
      so that the contexts reach the consumer. */
  lemma ContextsAloneAreYielded(last: string, ctx: seq<Context>)
    ensures Deltas(last, [RagChunk(last, Some(ctx))]) == [RagChunk("", Some(ctx))]
  {
  }

  // ---------------------------------------------------------------------------
  // Properties of the three calls

  /** Without a URL, `getConfig` and `predict` fail the same way whatever
      the network would have done: no request is made. */
  lemma MissingUrlMakesNoRequest(reg: RagConfig.Registry, backendUrl: Option<string>, params: PredictRequest,
                                 f1: HttpRequest -> Result<HttpResponse<Result<seq<Mode>, Error>>, Error>,
                                 f2: HttpRequest -> Result<HttpResponse<Result<seq<Mode>, Error>>, Error>,
                                 p1: HttpRequest -> Result<HttpResponse<StreamBody>, Error>,
                                 p2: HttpRequest -> Result<HttpResponse<StreamBody>, Error>,
                                 decode: string -> Result<Option<RagChunk>, Error>, base64: string -> string)
    requires !Given(backendUrl)
    ensures GetConfig(reg, backendUrl, f1, base64) == GetConfig(reg, backendUrl, f2, base64)
    ensures Predict(reg, params, backendUrl, p1, decode, base64) == Predict(reg, params, backendUrl, p2, decode, base64)
  {
  }

  /** Without a master URL, `configure` fails whatever the network would
      have done. */
  lemma MissingMasterMakesNoRequest(reg: RagConfig.Registry, params: ConfigureRequest,
                                    f1: HttpRequest -> Result<HttpResponse<Result<Mode, Error>>, Error>,
                                    f2: HttpRequest -> Result<HttpResponse<Result<Mode, Error>>, Error>,
                                    base64: string -> string)
    requires RagConfig.GetMasterUrl(reg) == ""
    ensures Configure(reg, params, f1, base64) == Configure(reg, params, f2, base64)
  {
  }

  /** A 401 from any of the three calls is reported as an authentication
      failure, never as a generic HTTP error. */
  lemma UnauthorizedIsAuthFailure(reg: RagConfig.Registry, url: string, statusText: string,
                                  params: PredictRequest, cparams: ConfigureRequest,
                                  modes: Result<seq<Mode>, Error>, mode: Result<Mode, Error>, body: StreamBody,
                                  decode: string -> Result<Option<RagChunk>, Error>, base64: string -> string)
    requires url != ""
    ensures GetConfig(reg, Some(url), _ => Success(HttpResponse(401, statusText, modes)), base64)
         == Failure(Fail(AuthFailedMessage))
    ensures Truthy(RagConfig.GetMasterUrl(reg)) ==>
              Configure(reg, cparams, _ => Success(HttpResponse(401, statusText, mode)), base64)
              == Failure(Fail(AuthFailedMessage))
    ensures Predict(reg, params, Some(url), _ => Success(HttpResponse(401, statusText, body)), decode, base64)
         == Drained([], Failed(Fail(AuthFailedMessage)))
  {
    assert !ClosedByPeer(Fail(AuthFailedMessage)) by {
      NotContained(AuthFailedMessage, "terminated", 2);
      NotContained(AuthFailedMessage, "other side closed", 4);
    }
  }

  /** A string lacking one of `part`'s characters does not include `part`. */
  lemma NotContained(s: string, part: string, k: nat)
    requires k < |part| && part[k] !in s
    ensures !Contains(s, part)
  {
  }

  /** A read error reporting that the server closed the connection ends
      `predict` normally, keeping every chunk already converted. */
  lemma PeerCloseEndsPredictNormally(reg: RagConfig.Registry, params: PredictRequest, url: string,
                                     status: int, statusText: string, chunks: seq<string>, e: Error,
                                     decode: string -> Result<Option<RagChunk>, Error>, base64: string -> string)
    requires url != "" && Ok(status) && ClosedByPeer(e)
    ensures var d := Predict(reg, params, Some(url),
                             _ => Success(HttpResponse(status, statusText, StreamBody(chunks, SseParser.ReadFailed(e)))),
                             decode, base64);
      d == Predict(reg, params, Some(url),
                   _ => Success(HttpResponse(status, statusText, StreamBody(chunks, SseParser.EndOfStream))),
                   decode, base64)
  {
    SseParser.PeerCloseIsNormalEnd(chunks, e, decode);
  }

  /** A `predict` that ends in error ends with the missing-URL error, a
      timeout naming the URL, or an error that is neither an abort nor a
      closed connection. */
  lemma PredictErrorsClassified(reg: RagConfig.Registry, params: PredictRequest, backendUrl: Option<string>,
                                fetch: HttpRequest -> Result<HttpResponse<StreamBody>, Error>,
                                decode: string -> Result<Option<RagChunk>, Error>, base64: string -> string)
    requires Predict(reg, params, backendUrl, fetch, decode, base64).end.Failed?
    ensures var e := Predict(reg, params, backendUrl, fetch, decode, base64).end.error;
      || (!Given(backendUrl) && e == Fail(MissingPredictUrlMessage))
      || (Given(backendUrl) && e == Fail("Timeout during predict at " + backendUrl.value))
      || (Given(backendUrl) && e.name != AbortError && !ClosedByPeer(e))
  {
  }

  /** End to end: a 2xx stream of ever-longer answers read to the end comes
      out of `predict` as deltas that spell out the final answer. */
  lemma PredictRebuildsAnswer(reg: RagConfig.Registry, params: PredictRequest, url: string,
                              status: int, statusText: string, body: StreamBody,
                              decode: string -> Result<Option<RagChunk>, Error>, base64: string -> string)
    requires url != "" && Ok(status)
    requires var parsed := SseParser.Decode(body.chunks, body.readEnd, decode);
      && parsed.items != []
      && forall i, j :: 0 <= i <= j < |parsed.items| ==> parsed.items[i].response <= parsed.items[j].response
    ensures Text(Predict(reg, params, Some(url), _ => Success(HttpResponse(status, statusText, body)), decode, base64).items)
         == Last(SseParser.Decode(body.chunks, body.readEnd, decode).items).response
  {
    DeltasRebuildLastAnswer(SseParser.Decode(body.chunks, body.readEnd, decode).items);
  }
}
