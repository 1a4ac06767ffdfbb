/** The records exchanged between the chat router and a RAG provider
    (`rag-adapter.ts`) and the events the router streams to the browser
    (`stream-events.ts`). */
module RagTypes {
  import opened Common

  /** A retrieved passage. Its free-form `metadata` is not modelled: nothing
      in the core reads it. */
  datatype Context = Context(
    id: string,
    title: string,
    passage: string,
    timestamp: Option<string>,
    url: Option<string>)

  /** One item of a prediction stream; `contexts == None` is JSON `null`. */
  datatype RagChunk = RagChunk(response: string, contexts: Option<seq<Context>>)

  /** A (language, domain) configuration a backend can serve. */
  datatype Mode = Mode(language: string, domain: string)

  datatype HistoryEntry = HistoryEntry(role: string, content: string)

  /** Body of `POST /configure`; `None` is JSON `null`. */
  datatype ConfigureRequest = ConfigureRequest(
    prompt: string,
    availableConfigs: seq<Mode>,
    language: Option<string>,
    domain: Option<string>)

  /** Body of `POST /predict`. */
  datatype PredictRequest = PredictRequest(
    history: seq<HistoryEntry>,
    prompt: string,
    language: string,
    domain: string)

  datatype StatusCode = StatusRetrying | StatusSuccess | StatusError

  /** `StreamStatusEvent` carries the optional `params.attempt` and
      `params.message`; `StreamContentEvent` carries one relayed chunk. */
  datatype StreamEvent =
    | Status(code: StatusCode, attempt: Option<int>, message: Option<string>)
    | Content(response: string, contexts: Option<seq<Context>>)

  function RetryingEvent(attempt: int): StreamEvent {
    Status(StatusRetrying, Some(attempt), None)
  }

  function SuccessEvent(): StreamEvent {
    Status(StatusSuccess, None, None)
  }

  function ErrorEvent(message: string): StreamEvent {
    Status(StatusError, None, Some(message))
  }

  /** How a stream of items ended: drained, or with a thrown error. */
  datatype End = Completed | Failed(error: Error)

  /** Everything a consumer of an async generator observes when it drains it:
      the items in order, then either completion or the error thrown. */
  datatype Drained<T> = Drained(items: seq<T>, end: End)

  /** The text a stream of chunks spells out: their responses, concatenated
      in order. */
  function Text(chunks: seq<RagChunk>): string {
    if chunks == [] then "" else chunks[0].response + Text(chunks[1..])
  }

  lemma {:induction false} TextAppend(a: seq<RagChunk>, b: seq<RagChunk>)
    ensures Text(a + b) == Text(a) + Text(b)
  {
    if a == [] {
      assert a + b == b;
    } else {
      assert (a + b)[1..] == a[1..] + b;
      TextAppend(a[1..], b);
    }
  }
}
