/** The `sendMessage` procedure of the chat router (`routers/chat.ts`): one
    chat turn, from the ownership check to the persisted answer, as a
    function of the stored chat, the request and the behaviour of the
    collaborators (discovery capabilities, the provider's `configure` and
    `predict`, the retry settings). */
module ChatRouter {
  import opened Common
  import opened RagTypes
  import RagDiscovery
  import RetryWithStatus

  const ChatNotFoundMessage := "Chat not found"
  const ConfigureFailedMessage := "Failed to configure RAG service"
  const EmptyStreamMessage := "Empty stream from RAG provider"
  /** The V8 message of the `TypeError` raised when the `onError` callback
      reads `.message` of the `null` last error of a run with no attempts. */
  const NullErrorMessage := "Cannot read properties of null (reading 'message')"
  const DemoLanguage := "es"
  const DemoDomain := "general"

  // ---------------------------------------------------------------------------
  // The store and the request

  /** A source attached to an assistant message. */
  datatype Source = Source(title: string, url: string)

  /** A stored message; `sources == None` is SQL `NULL`. */
  datatype Message = Message(role: string, content: string, sources: Option<seq<Source>>)

  /** The requesting user's chat row and its messages in creation order. */
  datatype Chat = Chat(title: string, messages: seq<Message>)

  /** The validated input of `sendMessage` (the chat id is implied by the
      chat the turn is given). */
  datatype SendInput = SendInput(
    content: string,
    title: Option<string>,
    language: Option<string>,
    domain: Option<string>,
    demo: Option<bool>)

  /** The collaborators: the capabilities the discovery service publishes,
      the provider's `configure`, what the provider streams on the n-th
      `predict` call of the turn, and the retry settings. */
  datatype Env = Env(
    capabilities: seq<RagDiscovery.Capability>,
    configure: ConfigureRequest -> Result<Mode, Error>,
    predict: (PredictRequest, nat) -> Drained<RagChunk>,
    retry: RetryWithStatus.Settings)

  /** The events streamed to the browser and the chat as stored afterwards;
      `chat == None` when the chat is not the user's. */
  datatype Turn = Turn(events: seq<StreamEvent>, chat: Option<Chat>)

  // ---------------------------------------------------------------------------
  // Before the provider is called

  /** The optimistic title is written when non-empty, then the user's
      message is appended. */
  function Accept(c: Chat, input: SendInput): Chat {
    Chat(if Given(input.title) then input.title.value else c.title,
         c.messages + [Message("user", input.content, None)])
  }

  function History(messages: seq<Message>): (h: seq<HistoryEntry>)
    ensures |h| == |messages|
    ensures forall i :: 0 <= i < |h| ==> h[i] == HistoryEntry(messages[i].role, messages[i].content)
  {
    seq(|messages|, i requires 0 <= i < |messages| => HistoryEntry(messages[i].role, messages[i].content))
  }

  /** The request each attempt sends: the history is read after the user's
      message is stored, so it is the earlier history followed by that
      message. */
  function TurnRequest(c: Chat, input: SendInput, mode: Mode): (r: PredictRequest)
    ensures r.history == History(c.messages) + [HistoryEntry("user", input.content)]
    ensures r.prompt == input.content && r.language == mode.language && r.domain == mode.domain
  {
    var h := History(Accept(c, input).messages);
    assert h == History(c.messages) + [HistoryEntry("user", input.content)];
    PredictRequest(h, input.content, mode.language, mode.domain)
  }

  /** The configurations offered to `configure`: the capabilities whose
      language and domain are both non-empty, in order. */
  function FullModes(caps: seq<RagDiscovery.Capability>): (r: seq<Mode>)
    ensures forall m :: m in r <==>
      exists i :: 0 <= i < |caps| && Given(caps[i].language) && Given(caps[i].domain)
                  && m == Mode(caps[i].language.value, caps[i].domain.value)
  {
    if caps == [] then []
    else
      var rest := FullModes(caps[1..]);
      assert forall i :: 1 <= i < |caps| ==> caps[i] == caps[1..][i - 1];
      if Given(caps[0].language) && Given(caps[0].domain)
      then [Mode(caps[0].language.value, caps[0].domain.value)] + rest
      else rest
  }

  /** The complete modes of a concatenation, in order and with repetitions. */
  lemma {:induction false} FullModesAppend(a: seq<RagDiscovery.Capability>, b: seq<RagDiscovery.Capability>)
    ensures FullModes(a + b) == FullModes(a) + FullModes(b)
  {
    if a == [] {
      assert a + b == b;
    } else {
      assert (a + b)[1..] == a[1..] + b;
      FullModesAppend(a[1..], b);
    }
  }

  /** One capability yields one mode when both its fields are given, and
      none otherwise. */
  lemma FullModesSingleton(c: RagDiscovery.Capability)
    ensures FullModes([c]) == if Given(c.language) && Given(c.domain)
                              then [Mode(c.language.value, c.domain.value)] else []
  {
    assert [c][1..] == [];
  }

  /** `x || null` on an optional string. */
  function OrNull(x: Option<string>): (r: Option<string>)
    ensures r.Some? <==> Given(x)
    ensures r.Some? ==> r == x
  {
    if Given(x) then x else None
  }

  function ConfigureRequestFor(input: SendInput, caps: seq<RagDiscovery.Capability>): ConfigureRequest {
    ConfigureRequest(input.content, FullModes(caps), OrNull(input.language), OrNull(input.domain))
  }

  /** The (language, domain) the turn predicts with. Demo mode fills in
      "es"/"general"; two non-empty values are used as sent; otherwise the
      provider's `configure` decides, and its failure is the turn's. */
  function ResolveMode(input: SendInput, env: Env): (r: Result<Mode, Error>)
    ensures input.demo == Some(true) ==>
              && r.Success?
              && r.value.language == (if Given(input.language) then input.language.value else DemoLanguage)
              && r.value.domain == (if Given(input.domain) then input.domain.value else DemoDomain)
    ensures input.demo != Some(true) && Given(input.language) && Given(input.domain) ==>
              r == Success(Mode(input.language.value, input.domain.value))
    ensures input.demo != Some(true) && !(Given(input.language) && Given(input.domain)) ==>
              r == env.configure(ConfigureRequestFor(input, env.capabilities))
  {
    if input.demo == Some(true) then
      Success(Mode(OrElse(input.language.GetOr(""), DemoLanguage), OrElse(input.domain.GetOr(""), DemoDomain)))
    else if Given(input.language) && Given(input.domain) then
      Success(Mode(input.language.value, input.domain.value))
    else
      env.configure(ConfigureRequestFor(input, env.capabilities))
  }

  // ---------------------------------------------------------------------------
  // Streaming

  /** `startStream`: the stream is opened by reading its first chunk; an
      error before it, or no chunk at all, fails the attempt. */
  function StartStream(d: Drained<RagChunk>): (r: Result<Drained<RagChunk>, Error>)
    ensures r.Success? <==> d.items != []
    ensures r.Success? ==> r.value == d
    ensures d.items == [] && d.end.Failed? ==> r == Failure(d.end.error)
    ensures d.items == [] && d.end.Completed? ==> r == Failure(Fail(EmptyStreamMessage))
  {
    if d.items != [] then Success(d)
    else if d.end.Failed? then Failure(d.end.error)
    else Failure(Fail(EmptyStreamMessage))
  }

  /** The function handed to the retry loop: attempt `n` is the n-th
      `predict` call of the turn. */
  function Streams(env: Env, req: PredictRequest): nat -> Result<Drained<RagChunk>, Error> {
    (n: nat) => StartStream(env.predict(req, n))
  }

  /** The RETRYING events `onRetry` buffers, one per attempt it is given. */
  function RetryEvents(attempts: seq<nat>): (r: seq<StreamEvent>)
    ensures |r| == |attempts|
    ensures forall i :: 0 <= i < |r| ==> r[i] == RetryingEvent(attempts[i])
  {
    seq(|attempts|, i requires 0 <= i < |attempts| => RetryingEvent(attempts[i]))
  }

  /** One content event per chunk, relayed unchanged. */
  function ContentEvents(items: seq<RagChunk>): (r: seq<StreamEvent>)
    ensures |r| == |items|
    ensures forall i :: 0 <= i < |r| ==> r[i] == Content(items[i].response, items[i].contexts)
  {
    seq(|items|, i requires 0 <= i < |items| => Content(items[i].response, items[i].contexts))
  }

  /** The message of what the retry loop throws when it gives up. */
  function ThrownMessage(last: Option<Error>): string {
    match last
    case Some(e) => e.message
    case None => NullErrorMessage
  }

  // ---------------------------------------------------------------------------
  // Persisting the answer

  /** The `sources` variable after relaying `items`: every chunk with
      non-null contexts (an empty array included) replaces it. */
  function LatestContexts(sources: seq<Context>, items: seq<RagChunk>): seq<Context>
    decreases |items|
  {
    if items == [] then sources
    else LatestContexts(if items[0].contexts.Some? then items[0].contexts.value else sources, items[1..])
  }

  /** The stored sources: title and URL (empty when missing) of each
      context, or `NULL` for none. */
  function SourcesFor(contexts: seq<Context>): (r: Option<seq<Source>>)
    ensures r.None? <==> contexts == []
    ensures r.Some? ==> |r.value| == |contexts|
    ensures r.Some? ==> forall i :: 0 <= i < |contexts| ==>
              r.value[i] == Source(contexts[i].title, contexts[i].url.GetOr(""))
  {
    if |contexts| > 0
    then Some(seq(|contexts|, i requires 0 <= i < |contexts| => Source(contexts[i].title, contexts[i].url.GetOr(""))))
    else None
  }

  /** The assistant message written after a completed stream, if its text
      is non-empty. */
  function Persist(c: Chat, items: seq<RagChunk>): Chat {
    var text := Text(items);
    if Truthy(text)
    then Chat(c.title, c.messages + [Message("assistant", text, SourcesFor(LatestContexts([], items)))])
    else c
  }

  // ---------------------------------------------------------------------------
  // The turn

  /** One turn. `replay` selects what the catch block does with the buffered
      RETRYING events once they have already been streamed: yield them a
      second time (the code as written) or not. */
  function Send(chat: Option<Chat>, input: SendInput, env: Env, replay: bool): (t: Turn)
    ensures chat.None? ==> t == Turn([ErrorEvent(ChatNotFoundMessage)], None)
    ensures chat.Some? ==>
              && t.chat.Some?
              && |chat.value.messages| + 1 <= |t.chat.value.messages| <= |chat.value.messages| + 2
              && t.chat.value.messages[..|chat.value.messages| + 1] == Accept(chat.value, input).messages
              && t.chat.value.title == Accept(chat.value, input).title
  {
    match chat
    case None => Turn([ErrorEvent(ChatNotFoundMessage)], None)
    case Some(c) =>
      var accepted := Accept(c, input);
      match ResolveMode(input, env)
      case Failure(_) => Turn([ErrorEvent(ConfigureFailedMessage)], Some(accepted))
      case Success(mode) =>
        var run := RetryWithStatus.Run(Streams(env, TurnRequest(c, input, mode)), env.retry);
        var retrying := RetryEvents(RetryWithStatus.RetriedAttempts(run.trace));
        match run.outcome
        case Exhausted(last) => Turn(retrying + [ErrorEvent(ThrownMessage(last))], Some(accepted))
        case Succeeded(stream, _) =>
          var relayed := retrying + [SuccessEvent()] + ContentEvents(stream.items);
          match stream.end
          case Completed =>
            var stored := Persist(accepted, stream.items);
            assert stored.messages[..|c.messages| + 1] == accepted.messages;
            Turn(relayed, Some(stored))
          case Failed(e) => Turn(relayed + (if replay then retrying else []) + [ErrorEvent(e.message)], Some(accepted))
  }

  /** `sendMessage` as written: a failure after the stream has started
      streams the RETRYING events a second time before the ERROR. */
  function SendMessageAsWritten(chat: Option<Chat>, input: SendInput, env: Env): Turn {
    Send(chat, input, env, true)
  }

  /** `sendMessage` with each RETRYING event streamed once. */
  function SendMessage(chat: Option<Chat>, input: SendInput, env: Env): Turn {
    Send(chat, input, env, false)
  }

  // ---------------------------------------------------------------------------
  // Reading the events

  predicate IsError(e: StreamEvent) {
    e.Status? && e.code == StatusError
  }

  predicate ErrorFree(events: seq<StreamEvent>) {
    forall i :: 0 <= i < |events| ==> !IsError(events[i])
  }

  /** What a client gets by concatenating the content events. */
  function StreamedText(events: seq<StreamEvent>): string {
    if events == [] then "" else (if events[0].Content? then events[0].response else "") + StreamedText(events[1..])
  }

  lemma {:induction false} StreamedTextAppend(a: seq<StreamEvent>, b: seq<StreamEvent>)
    ensures StreamedText(a + b) == StreamedText(a) + StreamedText(b)
  {
    if a == [] {
      assert a + b == b;
    } else {
      assert (a + b)[1..] == a[1..] + b;
      StreamedTextAppend(a[1..], b);
    }
  }

  lemma {:induction false} StatusEventsCarryNoText(events: seq<StreamEvent>)
    requires forall i :: 0 <= i < |events| ==> events[i].Status?
    ensures StreamedText(events) == ""
  {
    if events != [] {
      StatusEventsCarryNoText(events[1..]);
    }
  }

  /** The content events spell out exactly the text of the relayed chunks. */
  lemma {:induction false} ContentEventsSpellText(items: seq<RagChunk>)
    ensures StreamedText(ContentEvents(items)) == Text(items)
  {
    if items != [] {
      assert ContentEvents(items)[1..] == ContentEvents(items[1..]);
      ContentEventsSpellText(items[1..]);
    }
  }

  // ---------------------------------------------------------------------------
  // Properties

  /** The sources kept are those of the last chunk with non-null contexts. */
  lemma {:induction false} LatestContextsIsLast(sources: seq<Context>, items: seq<RagChunk>, j: nat)
    requires j < |items| && items[j].contexts.Some?
    requires forall l :: j < l < |items| ==> items[l].contexts.None?
    ensures LatestContexts(sources, items) == items[j].contexts.value
    decreases |items|
  {
    if j > 0 {
      LatestContextsIsLast(if items[0].contexts.Some? then items[0].contexts.value else sources, items[1..], j - 1);
    } else {
      LatestContextsUnchanged(items[0].contexts.value, items[1..]);
    }
  }

  /** Chunks with null contexts leave the sources as they were. */
  lemma {:induction false} LatestContextsUnchanged(sources: seq<Context>, items: seq<RagChunk>)
    requires forall l :: 0 <= l < |items| ==> items[l].contexts.None?
    ensures LatestContexts(sources, items) == sources
    decreases |items|
  {
    if items != [] {
      LatestContextsUnchanged(sources, items[1..]);
    }
  }

  /** The configured mode never depends on `configure` in demo mode or when
      both language and domain are sent. */
  lemma ConfigureOnlyWhenNeeded(input: SendInput, env: Env, other: ConfigureRequest -> Result<Mode, Error>)
    requires input.demo == Some(true) || (Given(input.language) && Given(input.domain))
    ensures ResolveMode(input, env) == ResolveMode(input, env.(configure := other))
    ensures ResolveMode(input, env).Success?
  {
  }

  /** A failing `configure` ends the turn with exactly one ERROR, after the
      title and the user's message have been stored. */
  lemma ConfigureFailureTurn(c: Chat, input: SendInput, env: Env)
    requires input.demo != Some(true) && !(Given(input.language) && Given(input.domain))
    requires env.configure(ConfigureRequestFor(input, env.capabilities)).Failure?
    ensures SendMessage(Some(c), input, env) == Turn([ErrorEvent(ConfigureFailedMessage)], Some(Accept(c, input)))
    ensures SendMessageAsWritten(Some(c), input, env) == SendMessage(Some(c), input, env)
  {
  }

  /** The retry loop's view of a turn whose attempt `k` is the first to
      open a stream. */
  lemma OpensAt(env: Env, req: PredictRequest, k: nat)
    requires 1 <= k <= env.retry.maxAttempts
    requires forall i :: 1 <= i < k ==> env.predict(req, i).items == []
    requires env.predict(req, k).items != []
    ensures var run := RetryWithStatus.Run(Streams(env, req), env.retry);
      && run.outcome == RetryWithStatus.Succeeded(env.predict(req, k), k)
      && RetryEvents(RetryWithStatus.RetriedAttempts(run.trace)) == RetryEvents(seq(k - 1, i => i + 1))
  {
    RetryWithStatus.CallbacksOnSuccess(Streams(env, req), env.retry, k);
  }

  /** When attempt `k` is the first to open a stream: RETRYING for
      attempts `1..k-1` in order, one SUCCESS, the chunks of attempt `k` in
      provider order, and then either the stored answer or a single final
      ERROR with the stream's error and no answer stored. */
  lemma SuccessfulTurn(c: Chat, input: SendInput, env: Env, replay: bool, mode: Mode, k: nat)
    requires ResolveMode(input, env) == Success(mode)
    requires 1 <= k <= env.retry.maxAttempts
    requires forall i :: 1 <= i < k ==> env.predict(TurnRequest(c, input, mode), i).items == []
    requires env.predict(TurnRequest(c, input, mode), k).items != []
    ensures var d := env.predict(TurnRequest(c, input, mode), k);
      var t := Send(Some(c), input, env, replay);
      var retrying := RetryEvents(seq(k - 1, i => i + 1));
      && t.events == retrying + [SuccessEvent()] + ContentEvents(d.items)
                     + (if d.end.Failed? then (if replay then retrying else []) + [ErrorEvent(d.end.error.message)] else [])
      && t.chat == Some(if d.end.Completed? then Persist(Accept(c, input), d.items) else Accept(c, input))
  {
    OpensAt(env, TurnRequest(c, input, mode), k);
  }

  /** When every attempt fails to open a stream: RETRYING for attempts
      `1..max-1`, then one ERROR with the last attempt's error. */
  lemma ExhaustedTurn(c: Chat, input: SendInput, env: Env, replay: bool, mode: Mode)
    requires ResolveMode(input, env) == Success(mode)
    requires env.retry.maxAttempts >= 1
    requires forall i :: 1 <= i <= env.retry.maxAttempts ==> env.predict(TurnRequest(c, input, mode), i).items == []
    ensures var t := Send(Some(c), input, env, replay);
      var m := env.retry.maxAttempts;
      && t.events == RetryEvents(seq(m - 1, i => i + 1))
                     + [ErrorEvent(StartStream(env.predict(TurnRequest(c, input, mode), m)).error.message)]
      && t.chat == Some(Accept(c, input))
  {
    var fn := Streams(env, TurnRequest(c, input, mode));
    RetryWithStatus.CallbacksOnExhaustion(fn, env.retry);
  }

  /** With no attempts allowed, the turn ends with the `TypeError` the
      error callback raises on the `null` last error. */
  lemma NoAttemptTurn(c: Chat, input: SendInput, env: Env, replay: bool, mode: Mode)
    requires ResolveMode(input, env) == Success(mode)
    requires env.retry.maxAttempts <= 0
    ensures Send(Some(c), input, env, replay) == Turn([ErrorEvent(NullErrorMessage)], Some(Accept(c, input)))
  {
    RetryWithStatus.NoAttempts(Streams(env, TurnRequest(c, input, mode)), env.retry);
    assert RetryWithStatus.RetriedAttempts([RetryWithStatus.GiveUp(None)]) == [];
  }

  /** An answer is stored exactly when the client saw a turn without ERROR
      whose content events spell a non-empty text, and what is stored is
      that text. */
  lemma PersistedIffStreamSucceeded(c: Chat, input: SendInput, env: Env, replay: bool)
    ensures var t := Send(Some(c), input, env, replay);
      var n := |c.messages|;
      && (|t.chat.value.messages| == n + 2 <==> ErrorFree(t.events) && StreamedText(t.events) != "")
      && (|t.chat.value.messages| == n + 2 ==>
            t.chat.value.messages[n + 1].role == "assistant"
            && t.chat.value.messages[n + 1].content == StreamedText(t.events))
  {
    var t := Send(Some(c), input, env, replay);
    var accepted := Accept(c, input);
    assert |accepted.messages| == |c.messages| + 1;
    match ResolveMode(input, env)
    case Failure(_) =>
      assert t == Turn([ErrorEvent(ConfigureFailedMessage)], Some(accepted));
      assert IsError(t.events[0]);
    case Success(mode) =>
      var run := RetryWithStatus.Run(Streams(env, TurnRequest(c, input, mode)), env.retry);
      var retrying := RetryEvents(RetryWithStatus.RetriedAttempts(run.trace));
      match run.outcome
      case Exhausted(last) =>
        assert t == Turn(retrying + [ErrorEvent(ThrownMessage(last))], Some(accepted));
        assert IsError(t.events[|retrying|]);
      case Succeeded(stream, _) =>
        var contents := ContentEvents(stream.items);
        var relayed := retrying + [SuccessEvent()] + contents;
        match stream.end
        case Failed(e) =>
          assert t == Turn(relayed + (if replay then retrying else []) + [ErrorEvent(e.message)], Some(accepted));
          assert IsError(t.events[|t.events| - 1]);
        case Completed =>
          assert t == Turn(relayed, Some(Persist(accepted, stream.items)));
          assert t.events == (retrying + [SuccessEvent()]) + contents;
          StatusEventsCarryNoText(retrying + [SuccessEvent()]);
          StreamedTextAppend(retrying + [SuccessEvent()], contents);
          ContentEventsSpellText(stream.items);
          assert ErrorFree(t.events);
  }

  /** Every turn ends its events with at most one ERROR, which is the last
      event. */
  lemma ErrorIsFinal(chat: Option<Chat>, input: SendInput, env: Env, replay: bool)
    ensures var t := Send(chat, input, env, replay);
      t.events != [] && ErrorFree(t.events[..|t.events| - 1])
  {
    var t := Send(chat, input, env, replay);
    if chat.Some? {
      var c := chat.value;
      match ResolveMode(input, env)
      case Failure(_) =>
      case Success(mode) =>
        var run := RetryWithStatus.Run(Streams(env, TurnRequest(c, input, mode)), env.retry);
        var retrying := RetryEvents(RetryWithStatus.RetriedAttempts(run.trace));
        match run.outcome
        case Exhausted(last) =>
          assert t.events[..|t.events| - 1] == retrying;
        case Succeeded(stream, _) =>
          var relayed := retrying + [SuccessEvent()] + ContentEvents(stream.items);
          match stream.end
          case Failed(e) =>
            assert t.events[..|t.events| - 1] == relayed + (if replay then retrying else []);
          case Completed =>
            assert t.events[..|t.events| - 1] == relayed[..|relayed| - 1];
    }
  }

  /** The code as written streams the RETRYING event of attempt 1 twice when
      attempt 2 opens a stream that then fails. */
  lemma RetriesRepeatedAsWritten(c: Chat, input: SendInput, env: Env, mode: Mode)
    requires ResolveMode(input, env) == Success(mode)
    requires env.retry.maxAttempts >= 2
    requires env.predict(TurnRequest(c, input, mode), 1).items == []
    requires env.predict(TurnRequest(c, input, mode), 2).items != []
    requires env.predict(TurnRequest(c, input, mode), 2).end.Failed?
    ensures var t := SendMessageAsWritten(Some(c), input, env);
      var n := |env.predict(TurnRequest(c, input, mode), 2).items|;
      && |t.events| == n + 4
      && t.events[0] == RetryingEvent(1)
      && t.events[n + 2] == RetryingEvent(1)
  {
    OpensAt(env, TurnRequest(c, input, mode), 2);
    assert RetryEvents(seq(1, i => i + 1)) == [RetryingEvent(1)];
  }
}
