# ilenia-rag-frontend: the RAG relay, modelled in Dafny

This project models the server-side core of the Ilenia chat front end. That
core relays a user's question to a retrieval-augmented generation (RAG)
backend and streams the answer back. The model also covers the three web
helpers that share its conventions: the locale provider, the RAG context
selector and the request guard.

One Dafny module per source file:

| module | source file | what it is |
|---|---|---|
| `Common` | (shared) | `Option`/`Result`, a JavaScript-style `Error`, and the string built-ins the code leans on: `trim` with the ECMAScript whitespace set, `split` on one character, `toLowerCase`/`toUpperCase` on ASCII, truthiness, decimal rendering |
| `RagTypes` | `apps/server/src/lib/rag-adapter.ts`, `apps/server/src/lib/stream-events.ts` | modes, chunks, contexts, requests, and a drained stream (`Drained`: the items yielded plus how the stream ended) |
| `SseParser` | `apps/server/src/lib/sse-parser.ts` | line buffering across read chunks, and the per-line `data:` / field / `[DONE]` / JSON classification |
| `RetryWithStatus` | `apps/server/src/lib/retry-with-status.ts` | settings from the environment, the merge with per-call settings, exponential back-off, and the retry loop as a trace of calls, `onRetry` callbacks, sleeps and the final `onError` |
| `RagConfig` | `apps/server/src/lib/rag-config.ts` | the server registry built from `RAG_SERVERS`, `RAG_SERVER_CREDENTIALS` and `RAG_MASTER_URL`, and the Basic authorization header |
| `MockRagProvider` | `apps/server/src/lib/mock-rag-provider.ts` | scenario matching, the 10-character chunking, simulated failures |
| `RealRagProvider` | `apps/server/src/lib/real-rag-provider.ts` | `get_config`, `configure` and `predict` over HTTP, status and timeout classification, and cumulative-to-delta conversion of the answer stream |
| `RagDiscovery` | `apps/server/src/lib/rag-discovery.ts` | the capability map (`language-domain` key to backend URL), wildcard lookup, refresh from every server, labels |
| `ChatRouter` | `apps/server/src/routers/chat.ts` | the `sendMessage` turn: ownership, mode resolution, streaming with retries, persistence |
| `I18nProvider` | `apps/web/src/providers/i18n-provider.tsx` | nested key lookup, `{{name}}` interpolation, plural keys, the locale cookie |
| `RagContextSelector` | `apps/web/src/components/rag-context-selector.tsx` | grouping capabilities by language, the selection it emits, the trigger label |
| `Proxy` | `apps/web/proxy.ts` | which paths need a session cookie, and the redirect home |

Modelling choices:

- Everything with an effect becomes a value or a parameter:
  - the network is a function from request to response (or error);
  - JSON decoding is a function from text to `Result`, with `None` for the literal `null`;
  - base64 is a function from text to text;
  - a provider's `predict` is a function from request and attempt number to a drained stream. `ChatRouter.Env` carries `predict` and `configure` as arbitrary functions, so the turn lemmas hold for any provider: the mock the factory wires today, the real provider, or any other;
  - the scenario file is a list of scenarios.
- A JavaScript `Map` or object used as a map is a list of entries with unique keys (`RagDiscovery.Entry`). A Dafny `map` is used where order never shows.
- The retry loop is a pure function that returns its outcome together with a trace of what it did. The method `RetryWithStatus.RetryLoop` computes the same run with a loop.
- `sendMessage` appears twice: `ChatRouter.SendMessageAsWritten` as the code is written, and `ChatRouter.SendMessage` with the repeated RETRYING events removed (see Findings). Both are `ChatRouter.Send` with a flag, and the lemmas about a turn hold for both turns unless a row says otherwise.
- Async generators are drained: a stream is the sequence of items it yields plus its end, `Completed` or `Failed(error)`.
- Errors keep their JavaScript `name`, because `AbortError` is classified by name. "Closed by peer" is classified by a substring of the message, as the code does.

Behaviour worth knowing:

- `sendMessage` never calls `findBackend`. The turn's language and domain go to the provider, which chooses its backend.
- The provider factory `getRagProvider` (`rag-adapter.ts`, lines 40-47) returns the mock provider for every value of `RAG_PROVIDER`. Any value other than `"mock"` only logs a warning and falls back to the mock. A `sendMessage` turn therefore never reaches the real provider in this code. The discovery service, however, runs in mock mode only when `RAG_PROVIDER` is exactly `"mock"`. With any other value, discovery polls the real servers while turns are answered by the mock.
- A failing `/configure` call ends the turn with one error event. There is no fallback mode.
- A `[DONE]` line is skipped like a comment. It does not end the stream.
- `initialize` of the registry writes the master URL and then clears the lists before parsing credentials. A malformed credential therefore leaves a partly rebuilt registry that is not marked initialized.
- With a retry limit of zero or less, the error callback dereferences a `null` last error. The turn then ends with the resulting `TypeError` message (`ChatRouter.NullErrorMessage`).

## Model

| member | source | states |
|---|---|---|
| Common.Trim | apps/server/src/lib/sse-parser.ts:47-47 | The result is the input's middle slice: everything cut from either end is whitespace, the result neither starts nor ends with whitespace, and it is empty exactly when the input is blank. |
| Common.TrimTrim | apps/server/src/lib/rag-config.ts:36-37 | Trimming twice is trimming once. |
| Common.TrimUnique | apps/server/src/lib/sse-parser.ts:47-47 | Any decomposition of a string into blank, core and blank, where the core has no whitespace at its ends, has that core as its trim. |
| Common.SplitJoin | apps/server/src/lib/sse-parser.ts:23-25 | Joining the pieces of a `split` with the separator gives the input back, and no piece contains the separator. |
| Common.SplitAtFirst | apps/server/src/lib/rag-config.ts:36-36 | Splitting `a + sep + b`, where `a` has no separator, gives `a` followed by the pieces of `b`. |
| Common.KeepTruthy | apps/server/src/lib/rag-config.ts:36-36 | `filter(Boolean)`: every element kept is non-empty and comes from the input, and every non-empty input element is kept. |
| Common.KeepTruthyAppend | apps/server/src/lib/rag-config.ts:36-36 | Filtering a concatenation is concatenating the filtered parts: order and repetitions are kept. |
| Common.KeepTruthySingleton | apps/server/src/lib/rag-config.ts:36-36 | One string is kept exactly when it is non-empty. |
| Common.IndexOf | apps/server/src/lib/rag-config.ts:96-97 | `indexOf` returns the first position of the character, or nothing when it is absent. |
| Common.LowerIdempotent | apps/server/src/lib/rag-discovery.ts:117-125 | Lower-casing twice is lower-casing once. |
| SseParser.ParseLine | apps/server/src/lib/sse-parser.ts:29-66 | Blank lines are skipped. A line is skipped exactly when its body after an optional `data:` is empty, `[DONE]`, starts with `event:`, `id:` or `retry:`, or decodes to JSON `null`. Otherwise the body is decoded, and a payload or an error is exactly what the decoder returns. |
| SseParser.NullPayloadIsTransparent | apps/server/src/lib/sse-parser.ts:29-31 | A line whose JSON is `null` can be removed from the input without changing the items or the end. |
| SseParser.DataPrefixTransparent | apps/server/src/lib/sse-parser.ts:53-55 | Prefixing `data:` to a line that does not itself start with `data:` after trimming changes nothing in how it is parsed. |
| SseParser.DoneYieldsNothing | apps/server/src/lib/sse-parser.ts:61-63 | `[DONE]`, bare or after `data:`, yields nothing. |
| SseParser.FeedIsSplit | apps/server/src/lib/sse-parser.ts:20-33 | Buffering chunk by chunk gives the completed lines and a remainder that together are the `split('\n')` of everything received; the remainder has no newline. |
| SseParser.EmitBlankLast | apps/server/src/lib/sse-parser.ts:35-40 | A blank leftover after the last newline adds nothing to the stream. |
| SseParser.DecodeMatchesText | apps/server/src/lib/sse-parser.ts:1-44 | Parsing a stream read in chunks gives the same items and end as parsing the concatenated text split into lines. |
| SseParser.ChunkingInvariance | apps/server/src/lib/sse-parser.ts:1-44 | How the bytes are cut into read chunks never changes the parsed stream. |
| SseParser.SkippedLineIsTransparent | apps/server/src/lib/sse-parser.ts:27-32 | Removing a skipped line from the input changes neither the items nor the end. |
| SseParser.PeerCloseIsNormalEnd | apps/server/src/lib/sse-parser.ts:12-18 | A read failure whose message says the peer closed the connection ends the stream exactly as a normal end of stream. |
| SseParser.OtherReadErrorPropagates | apps/server/src/lib/sse-parser.ts:12-18 | Any other read failure ends the stream with that failure, after the lines completed before it. |
| SseParser.UnterminatedBodyIsOneLine | apps/server/src/lib/sse-parser.ts:35-40 | A body without any newline is parsed as a single line at end of stream. |
| RetryWithStatus.EnvSettings | apps/server/src/lib/retry-with-status.ts:3-22 | Unset variables give 3 attempts and a 1000 ms base delay; set ones are used as given. |
| RetryWithStatus.Merge | apps/server/src/lib/retry-with-status.ts:34-34 | A per-call setting overrides the environment's, field by field. |
| RetryWithStatus.MergeLaws | apps/server/src/lib/retry-with-status.ts:34-34 | Merging an empty per-call setting is the identity, and merging the same setting twice is merging it once. |
| RetryWithStatus.BackoffDoubles | apps/server/src/lib/retry-with-status.ts:24-26 | The first delay is the base delay and each next delay is twice the previous one: 1000 ms, then 2000 ms, by default. |
| RetryWithStatus.RetryLoop | apps/server/src/lib/retry-with-status.ts:28-62 | The loop computes the same trace and outcome as the recursive definition. On success, attempts before the successful one all failed. On exhaustion, every attempt failed and the last error is reported. |
| RetryWithStatus.SuccessTrace | apps/server/src/lib/retry-with-status.ts:37-54 | When attempt `k` is the first success, the trace is the retries of attempts `1..k-1` followed by the call to `k`, and the outcome is `k`'s value. |
| RetryWithStatus.ExhaustedTrace | apps/server/src/lib/retry-with-status.ts:37-61 | When every attempt fails, the trace ends with the last call and `onError` with the last attempt's error, which is also what is thrown. |
| RetryWithStatus.NoAttempts | apps/server/src/lib/retry-with-status.ts:56-61 | With a limit of zero or less, nothing is called and `onError` receives `null`. |
| RetryWithStatus.CallbacksOnSuccess | apps/server/src/lib/retry-with-status.ts:37-54 | Success at attempt `k`: `onRetry` sees `1..k-1` in order, the sleeps are the doubling back-off delays, there are exactly `k` calls, and `onError` is never called. |
| RetryWithStatus.CallbacksOnExhaustion | apps/server/src/lib/retry-with-status.ts:37-61 | Exhaustion: `onRetry` sees `1..max-1`, the sleeps double, there are exactly `max` calls, and the last error is thrown. |
| RetryWithStatus.ExhaustionEndsWithGiveUp | apps/server/src/lib/retry-with-status.ts:56-61 | The exhausted trace ends with exactly one `onError`, after the last call, and has no sleep after the last attempt. |
| RetryWithStatus.AtMostMaxCalls | apps/server/src/lib/retry-with-status.ts:37-54 | The function is never called more than the attempt limit allows. |
| RagConfig.ServerList | apps/server/src/lib/rag-config.ts:36-36 | The server URLs are non-empty and every piece that trims to something non-empty is listed trimmed. |
| RagConfig.ServerListAppend | apps/server/src/lib/rag-config.ts:36-36 | The list for concatenated pieces is the concatenation of the lists: order and repetitions are kept. |
| RagConfig.ServerListSingleton | apps/server/src/lib/rag-config.ts:36-36 | One piece contributes its trimmed text, unless that is empty. |
| RagConfig.CredentialListAppend | apps/server/src/lib/rag-config.ts:37-37 | The trimmed list for concatenated pieces is the concatenation of the trimmed lists. |
| RagConfig.ServerListTrimmed | apps/server/src/lib/rag-config.ts:36-36 | Every listed server URL is already trimmed. |
| RagConfig.CredentialList | apps/server/src/lib/rag-config.ts:37-37 | One credential per comma-separated piece, trimmed, blanks kept so that positions line up with servers. |
| RagConfig.ParseCredentials | apps/server/src/lib/rag-config.ts:95-105 | Fails exactly when there is no colon. Otherwise the user has no colon and `user + ":" + password` is the input, so the split is at the first colon. |
| RagConfig.ParseCredentialsRoundTrip | apps/server/src/lib/rag-config.ts:95-105 | Parsing `user:password` for a colon-free user gives back that user and password. |
| RagConfig.BuildServers | apps/server/src/lib/rag-config.ts:58-82 | The loop either completes and marks the registry initialized with one entry per URL, or stops at a malformed credential with the registry uninitialized. It only appends entries. |
| RagConfig.Initialize | apps/server/src/lib/rag-config.ts:27-93 | A second call changes nothing. Success means initialized, with the master URL as given. |
| RagConfig.InitializeBuildsServers | apps/server/src/lib/rag-config.ts:27-82 | After a successful first call, the server URLs are the trimmed non-empty entries in order. Each has the credential at its position (empty when missing or blank). Exactly the entries equal to the master URL are master, and the master URL is one of the servers. |
| RagConfig.InitializeBuildsCredentials | apps/server/src/lib/rag-config.ts:58-70 | The credential map has a key exactly for the servers with a non-blank credential. Unless a later duplicate URL overrides it, each key holds its parsed credential. |
| RagConfig.ValidationFailsWithoutWrites | apps/server/src/lib/rag-config.ts:39-49 | No servers, no master URL, or a master URL not among the servers: an error, with the registry unchanged. |
| RagConfig.MalformedCredentialLeavesUninitialised | apps/server/src/lib/rag-config.ts:51-67 | A colon-free credential aborts initialization: the registry stays uninitialized but already holds the new master URL. |
| RagConfig.GetServerUrls | apps/server/src/lib/rag-config.ts:122-124 | The URLs of the registered servers, in order. |
| RagConfig.GetAuthHeader | apps/server/src/lib/rag-config.ts:107-116 | No credentials: no header. Otherwise exactly one `Authorization` header, `Basic` with the base64 of `user:password`. |
| MockRagProvider.OrAny | apps/server/src/lib/mock-rag-provider.ts:31-35 | A missing or empty scenario language or domain reads as `any`; otherwise it is kept. |
| MockRagProvider.GetConfig | apps/server/src/lib/mock-rag-provider.ts:28-39 | The modes offered are exactly the scenarios' modes, each listed once, none empty. |
| MockRagProvider.GetConfigDedups | apps/server/src/lib/mock-rag-provider.ts:36-36 | The listing equals a first-occurrence deduplication of the scenarios' modes in order. |
| MockRagProvider.KeepFirstIsDedup | apps/server/src/lib/mock-rag-provider.ts:36-36 | The index-based filter `indexOf(m) === i` and the seen-list deduplication agree. |
| MockRagProvider.Configure | apps/server/src/lib/mock-rag-provider.ts:41-60 | A non-empty requested language or domain is echoed; otherwise `es` and `general`. |
| MockRagProvider.ConfigureIsStable | apps/server/src/lib/mock-rag-provider.ts:41-60 | The answer always names a language and a domain, and configuring again with it returns it unchanged. |
| MockRagProvider.Find | apps/server/src/lib/mock-rag-provider.ts:76-93 | `find` returns a matching scenario when one exists and nothing otherwise. |
| MockRagProvider.MatchPriority | apps/server/src/lib/mock-rag-provider.ts:76-93 | The generic answer exactly when no scenario matches even partly. Otherwise the answer is a scenario of the best rank (exact, then language only, then domain only), the first of that rank in file order. |
| MockRagProvider.Rank | apps/server/src/lib/mock-rag-provider.ts:76-93 | The tiers of a scenario: 0 exactly for an exact match, 1 for a language-only match, 2 for a domain-only match, 3 otherwise. |
| MockRagProvider.LanguageFallbackExample | apps/server/src/lib/mock-rag-provider.ts:83-88 | With a `eu`/`legal` scenario before an `es` scenario without a domain, a request for `es`/`general` is answered by the `es` scenario. |
| MockRagProvider.Pieces | apps/server/src/lib/mock-rag-provider.ts:95-111 | The pieces concatenate to the response, each has 1 to 10 characters, and all but the last have exactly 10. |
| MockRagProvider.Answer | apps/server/src/lib/mock-rag-provider.ts:95-116 | The chunks spell the scenario's response, carry no contexts until a final empty chunk with the scenario's contexts (or none). |
| MockRagProvider.Predict | apps/server/src/lib/mock-rag-provider.ts:62-119 | With simulation on, calls before the third since the last reset throw "Simulated RAG failure (attempt n/3)" and count. Any other call answers the matched scenario in full and resets the counter. |
| MockRagProvider.SimulationFailsTwiceThenAnswers | apps/server/src/lib/mock-rag-provider.ts:11-27 | With simulation on, three calls from a fresh counter fail, fail, then answer, and the counter returns to zero. |
| MockRagProvider.NoSimulationNeverFails | apps/server/src/lib/mock-rag-provider.ts:62-119 | With simulation off, every call answers and the counter is zero after it. |
| RealRagProvider.Headers | apps/server/src/lib/real-rag-provider.ts:136-149 | Every request is sent as JSON, with an `Authorization` header exactly when the server has credentials, and no other header. |
| RealRagProvider.StatusError | apps/server/src/lib/real-rag-provider.ts:28-35 | No error exactly for a 2xx status. A 401 is an authentication failure; any other status reports its code and text. |
| RealRagProvider.OnTimeout | apps/server/src/lib/real-rag-provider.ts:46-49 | An abort becomes the call's timeout message; any other error passes through unchanged. |
| RealRagProvider.GetConfig | apps/server/src/lib/real-rag-provider.ts:10-55 | A missing URL fails before any request. Otherwise: a 2xx answer gives the decoded body; any other status gives its status error; an abort becomes the timeout message naming the URL; any other error reaches the caller unchanged. No error returned is an abort. |
| RealRagProvider.Configure | apps/server/src/lib/real-rag-provider.ts:57-115 | Without a master URL it fails before any request. Otherwise it posts to the master: a 2xx answer gives the decoded mode; any other status gives its status error; an abort becomes the timeout message naming the master; any other error reaches the caller unchanged. No error returned is an abort. |
| RealRagProvider.SliceFrom | apps/server/src/lib/real-rag-provider.ts:161-173 | `slice(n)`: the suffix from `n`, empty past the end. |
| RealRagProvider.Predict | apps/server/src/lib/real-rag-provider.ts:117-194 | A missing URL fails without yielding. Every chunk yielded has new text or contexts. |
| RealRagProvider.PredictEnd | apps/server/src/lib/real-rag-provider.ts:177-190 | A normal end or a peer close completes the stream; an abort becomes the predict timeout; any other error is rethrown unchanged. |
| RealRagProvider.DeltasMatchReference | apps/server/src/lib/real-rag-provider.ts:161-173 | The delta loop equals the reference: each chunk's text minus the previous cumulative answer, kept only when that is non-empty or the chunk has contexts. |
| RealRagProvider.ShorterAnswerIsDropped | apps/server/src/lib/real-rag-provider.ts:161-173 | A chunk no longer than the last answer and without contexts yields nothing, and the last answer moves to it. |
| RealRagProvider.DeltasConcatenate | apps/server/src/lib/real-rag-provider.ts:161-173 | For a cumulative stream (each answer extending the previous one), the deltas concatenate to the final answer minus what was already seen. |
| RealRagProvider.DeltasRebuildLastAnswer | apps/server/src/lib/real-rag-provider.ts:161-173 | From an empty start, the deltas of a cumulative stream spell its final answer. |
| RealRagProvider.HiThereExample | apps/server/src/lib/real-rag-provider.ts:161-173 | "Hi", "Hi there", "Hi there!" stream as "Hi", " there", "!". |
| RealRagProvider.ContextsAloneAreYielded | apps/server/src/lib/real-rag-provider.ts:166-171 | A chunk that only carries contexts is yielded with empty text. |
| RealRagProvider.MissingUrlMakesNoRequest | apps/server/src/lib/real-rag-provider.ts:11-13 | Without a backend URL, the result of `get_config` and `predict` does not depend on the network at all. |
| RealRagProvider.MissingMasterMakesNoRequest | apps/server/src/lib/real-rag-provider.ts:63-67 | Without a master URL, `configure`'s result does not depend on the network. |
| RealRagProvider.UnauthorizedIsAuthFailure | apps/server/src/lib/real-rag-provider.ts:151-154 | A 401 answer fails each of the three calls with the authentication message, whatever the body. |
| RealRagProvider.PeerCloseEndsPredictNormally | apps/server/src/lib/real-rag-provider.ts:177-183 | A stream the peer closes mid-way ends `predict` normally, after every delta read before the close. |
| RealRagProvider.PredictErrorsClassified | apps/server/src/lib/real-rag-provider.ts:185-190 | A failed `predict` is never an abort and never a peer close. |
| RealRagProvider.PredictRebuildsAnswer | apps/server/src/lib/real-rag-provider.ts:117-194 | For a 2xx cumulative stream, the text `predict` yields is the backend's final answer. |
| RagDiscovery.NormalizeKeyIgnoresCase | apps/server/src/lib/rag-discovery.ts:117-125 | Keys do not depend on letter case. |
| RagDiscovery.UpperCaseAnyIsNotWildcard | apps/server/src/lib/rag-discovery.ts:121-123 | Only lower-case `any` is the wildcard: `ANY` gives a different key. |
| RagDiscovery.Get | apps/server/src/lib/rag-discovery.ts:72-83 | `Map.get`: nothing exactly when no entry has the key; otherwise an entry of the map. |
| RagDiscovery.Put | apps/server/src/lib/rag-discovery.ts:141-141 | `Map.set`: an existing key keeps its position and takes the new URL while every other position is unchanged; a new key is appended last. The entries are the new one plus the old ones with other keys, still with unique keys. |
| RagDiscovery.KeyIndex | apps/server/src/lib/rag-discovery.ts:141-141 | The position of a key is found exactly when the key is stored. |
| RagDiscovery.PutGet | apps/server/src/lib/rag-discovery.ts:141-141 | Reading after writing gives the written URL for that key and the old value for every other key. |
| RagDiscovery.AddModesGet | apps/server/src/lib/rag-discovery.ts:139-142 | After registering a server's modes, a key points to the server exactly when one of its modes has that key; other keys keep their value. |
| RagDiscovery.FindBackend | apps/server/src/lib/rag-discovery.ts:69-86 | The exact key wins, then the language with any domain, then the domain with any language. |
| RagDiscovery.FindBackendSound | apps/server/src/lib/rag-discovery.ts:69-86 | What lookup returns is registered under one of the three candidate keys, and it returns nothing only when none of them is registered. |
| RagDiscovery.FindBackendIgnoresCase | apps/server/src/lib/rag-discovery.ts:69-86 | Lookup does not depend on the case of the language or domain. |
| RagDiscovery.GetCapabilities | apps/server/src/lib/rag-discovery.ts:88-115 | One capability per key, in map order. |
| RagDiscovery.CapabilityOfInvertsKey | apps/server/src/lib/rag-discovery.ts:98-101 | Splitting a key gives back the lower-cased language and domain, with the wildcard as `null`, whenever the parts hold no `-`. |
| RagDiscovery.LabelExamples | apps/server/src/lib/rag-discovery.ts:103-111 | The labels read "Legal · EU", "General · Multilingüe" and "General · ES". |
| RagDiscovery.FetchConfig | apps/server/src/lib/rag-discovery.ts:156-175 | A network error is passed on unchanged; a 2xx answer gives the decoded body; any other status, 401 included, fails with "HTTP" and the code. |
| RagDiscovery.ServerList | apps/server/src/lib/rag-discovery.ts:128-128 | The servers are the non-empty comma pieces, untrimmed. |
| RagDiscovery.ServerListAppend | apps/server/src/lib/rag-discovery.ts:128-128 | The list for concatenated pieces is the concatenation of the lists: order and repetitions are kept. |
| RagDiscovery.ServerListSingleton | apps/server/src/lib/rag-discovery.ts:128-128 | One piece is listed exactly when it is non-empty. |
| RagDiscovery.Refresh | apps/server/src/lib/rag-discovery.ts:127-154 | With no servers the map is left as it is; otherwise the result has unique keys. |
| RagDiscovery.RefreshOwner | apps/server/src/lib/rag-discovery.ts:127-154 | After a refresh with servers, every key points to the trimmed URL of the last server offering it, and keys no server offers are absent. |
| RagDiscovery.BuildMapOwner | apps/server/src/lib/rag-discovery.ts:136-150 | The loop's map gives each key its last offering server, and otherwise keeps the starting map's value. |
| RagDiscovery.FailingServerIgnored | apps/server/src/lib/rag-discovery.ts:143-149 | A server whose configuration cannot be fetched contributes nothing to the map. |
| RagDiscovery.Initialize | apps/server/src/lib/rag-discovery.ts:22-49 | Mock mode exactly when `RAG_PROVIDER` is `mock`; polling state untouched. |
| RagDiscovery.MockModeMapsEveryMode | apps/server/src/lib/rag-discovery.ts:26-44 | In mock mode, every mode of the mock provider points to the placeholder backend, and nothing else does. |
| RagDiscovery.StartPolling | apps/server/src/lib/rag-discovery.ts:51-67 | Mock mode never polls; otherwise the interval is (re)set. |
| RagDiscovery.MockModeNeverPolls | apps/server/src/lib/rag-discovery.ts:51-55 | A poll tick after starting polling in mock mode changes nothing. |
| ChatRouter.History | apps/server/src/routers/chat.ts:158-163 | The history is every stored message's role and content, in order. |
| ChatRouter.TurnRequest | apps/server/src/routers/chat.ts:232-242 | The prediction request carries the history including the new user message, the prompt and the resolved mode. |
| ChatRouter.FullModes | apps/server/src/routers/chat.ts:190-196 | The configurations offered to `configure` are exactly the capabilities naming both a language and a domain. |
| ChatRouter.FullModesAppend | apps/server/src/routers/chat.ts:190-196 | The configurations for concatenated capabilities are the concatenation of the configurations, in order and with repetitions. |
| ChatRouter.FullModesSingleton | apps/server/src/routers/chat.ts:190-196 | One capability gives one configuration when both its language and domain are given, and none otherwise. |
| ChatRouter.OrNull | apps/server/src/routers/chat.ts:201-202 | `x \|\| null`: kept exactly when non-empty. |
| ChatRouter.ResolveMode | apps/server/src/routers/chat.ts:165-223 | Demo mode fills in `es` and `general`; a request with both language and domain uses them; any other request asks `configure` and fails with the configure message when that fails. |
| ChatRouter.ConfigureOnlyWhenNeeded | apps/server/src/routers/chat.ts:171-186 | In demo mode, or with both language and domain given, the mode never depends on `configure`. |
| ChatRouter.StartStream | apps/server/src/routers/chat.ts:232-251 | An attempt opens a stream exactly when it yields a first chunk. An empty stream fails with its own error, or with "Empty stream from RAG provider". |
| ChatRouter.RetryEvents | apps/server/src/routers/chat.ts:255-261 | One RETRYING event per attempt passed to `onRetry`, in order. |
| ChatRouter.ContentEvents | apps/server/src/routers/chat.ts:281-303 | One content event per chunk, relaying its text and contexts. |
| ChatRouter.ContentEventsSpellText | apps/server/src/routers/chat.ts:281-303 | The content events spell exactly the relayed chunks' text. |
| ChatRouter.LatestContextsIsLast | apps/server/src/routers/chat.ts:283-297 | The sources kept are those of the last chunk carrying contexts. |
| ChatRouter.LatestContextsUnchanged | apps/server/src/routers/chat.ts:283-297 | Chunks without contexts never replace the sources. |
| ChatRouter.SourcesFor | apps/server/src/routers/chat.ts:326-326 | No sources are stored as `NULL`; otherwise one title and URL (empty when missing) per context. |
| ChatRouter.Send | apps/server/src/routers/chat.ts:107-335 | An unknown chat gives exactly one "Chat not found" error and stores nothing. Otherwise the title and the user message are stored first, and at most an assistant message follows. |
| ChatRouter.ConfigureFailureTurn | apps/server/src/routers/chat.ts:211-222 | A failing `configure` ends the turn with one ERROR after the user message is stored. |
| ChatRouter.SuccessfulTurn | apps/server/src/routers/chat.ts:253-316 | When attempt `k` opens the stream: RETRYING for `1..k-1`, one SUCCESS, the chunks of attempt `k`, then either the stored answer or one final ERROR. Before that ERROR the RETRYING events are streamed a second time exactly in the as-written turn. |
| ChatRouter.ExhaustedTurn | apps/server/src/routers/chat.ts:253-316 | When no attempt opens a stream, in both turns: RETRYING for `1..max-1`, then one ERROR with the last attempt's error, and no answer stored. |
| ChatRouter.NoAttemptTurn | apps/server/src/routers/chat.ts:262-268 | With no attempts allowed, both turns end with the `TypeError` about the `null` error. |
| ChatRouter.PersistedIffStreamSucceeded | apps/server/src/routers/chat.ts:318-334 | In both turns, an answer is stored exactly when the turn has no ERROR and its content events spell a non-empty text; the stored answer is that text. |
| ChatRouter.ErrorIsFinal | apps/server/src/routers/chat.ts:304-316 | In both turns, something is always emitted, and an ERROR can only be the last event. |
| ChatRouter.RetriesRepeatedAsWritten | apps/server/src/routers/chat.ts:304-308 | As written: when attempt 2 opens a stream that later fails, RETRYING for attempt 1 is streamed twice. |
| I18nProvider.GetNestedValue | apps/web/src/providers/i18n-provider.tsx:46-57 | Whatever the lookup returns other than the key itself is the string found by following the key's dotted path. |
| I18nProvider.GetAfterSet | apps/web/src/providers/i18n-provider.tsx:46-57 | Storing a string at a dotted path and looking that path up gives the string. |
| I18nProvider.SetPathKeepsOthers | apps/web/src/providers/i18n-provider.tsx:46-57 | Storing at one path leaves the lookup of every path not sharing its segments unchanged. |
| I18nProvider.MissingSegmentGivesPath | apps/web/src/providers/i18n-provider.tsx:49-54 | A path whose first segment is missing yields the path itself. |
| I18nProvider.Interpolate | apps/web/src/providers/i18n-provider.tsx:59-60 | Without parameters the template is returned unchanged. |
| I18nProvider.HoleReplaced | apps/web/src/providers/i18n-provider.tsx:61-64 | A `{{name}}` hole whose name is given is replaced by the value's string form, and the rest is interpolated in turn. |
| I18nProvider.NoBracesUnchanged | apps/web/src/providers/i18n-provider.tsx:61-64 | A template without `{` is left as it is. |
| I18nProvider.UndefinedLeavesTemplate | apps/web/src/providers/i18n-provider.tsx:61-64 | With no parameters defined, the template is left as it is, holes included (inherited names are admitted under Left out). |
| I18nProvider.WordLength | apps/web/src/providers/i18n-provider.tsx:61-61 | The longest prefix of word characters `[A-Za-z0-9_]`. |
| I18nProvider.ResolveKey | apps/web/src/providers/i18n-provider.tsx:89-100 | The key used is the key itself or, when a count is given, its `_one`/`_other` form, and only when that form is found. |
| I18nProvider.PluralUsedWhenPresent | apps/web/src/providers/i18n-provider.tsx:92-101 | When the plural form exists it is the one translated. |
| I18nProvider.SingularOtherwise | apps/web/src/providers/i18n-provider.tsx:89-103 | Without a count, or when the plural form is missing, the key itself is translated. |
| I18nProvider.SplitJoinRows | apps/web/src/providers/i18n-provider.tsx:72-73 | Splitting a cookie string on `; ` gives back the rows it was joined from. |
| I18nProvider.FindRow | apps/web/src/providers/i18n-provider.tsx:74-74 | The row found starts with the prefix; none found means no row does. |
| I18nProvider.FindRowFirst | apps/web/src/providers/i18n-provider.tsx:74-74 | The first row with the prefix is the one found. |
| I18nProvider.CookieValueRead | apps/web/src/providers/i18n-provider.tsx:71-75 | The cookie value written by `setLocale` is read back by the mount effect, whatever other cookies surround it. |
| I18nProvider.MountLocale | apps/web/src/providers/i18n-provider.tsx:71-81 | The locale after mount is always a known one: the cookie's when it names a known locale, Spanish otherwise. |
| I18nProvider.LocaleReadBack | apps/web/src/providers/i18n-provider.tsx:83-87 | A locale chosen with `setLocale` is the one adopted on the next mount. |
| I18nProvider.MountedLocaleIsKnown | apps/web/src/providers/i18n-provider.tsx:77-79 | The corrected check never adopts a cookie value that is not a known locale. |
| I18nProvider.InheritedNameAdoptedAsWritten | apps/web/src/providers/i18n-provider.tsx:77-77 | As written, a cookie `ilenia-locale=constructor` is adopted as the locale although it is no locale, and every key then translates to itself. |
| I18nProvider.FallbackIsSpanish | apps/web/src/providers/i18n-provider.tsx:112-125 | Before mount, translation is the Spanish translation, whatever the locale state. |
| RagContextSelector.FindGroup | apps/web/src/components/rag-context-selector.tsx:59-61 | The group found has the key; none found means no group has it. |
| RagContextSelector.InsertFacts | apps/web/src/components/rag-context-selector.tsx:53-75 | One capability added keeps the grouping well formed and adds exactly its language and its (language, domain) pair. |
| RagContextSelector.GroupsInvariant | apps/web/src/components/rag-context-selector.tsx:53-75 | There is a group exactly per language of a capability with both fields, keyed lower-case. Each group lists exactly the domains seen with that language, once each, ids `lang-domain`. |
| RagContextSelector.DomainKeysCount | apps/web/src/components/rag-context-selector.tsx:51-90 | `totalDomains` counts the distinct lower-cased domains of the capabilities with both fields. |
| RagContextSelector.IgnoredCapability | apps/web/src/components/rag-context-selector.tsx:54-54 | A capability missing its language or domain changes nothing. |
| RagContextSelector.FirstSpellingKept | apps/web/src/components/rag-context-selector.tsx:63-72 | A domain's label and code keep the spelling of its first capability. |
| RagContextSelector.LanguageLabels | apps/web/src/components/rag-context-selector.tsx:77-85 | One language entry per group, in group order. Its label is the spelling of the first capability whose language lower-cases to the group's key. |
| RagContextSelector.FirstSpelling | apps/web/src/components/rag-context-selector.tsx:78-83 | Nothing is found exactly when no capability's language lower-cases to the key. Otherwise the spelling is that of the first capability that does. |
| RagContextSelector.DomainSelect | apps/web/src/components/rag-context-selector.tsx:128-139 | Choosing a domain emits a manual selection with that domain and a language. |
| RagContextSelector.DisplayLabel | apps/web/src/components/rag-context-selector.tsx:141-149 | A manual selection with both fields shows `domain · language`; anything else shows the automatic text. |
| RagContextSelector.SelectThenReopen | apps/web/src/components/rag-context-selector.tsx:109-139 | After choosing a domain, reopening the selector opens the chosen language's group. |
| Proxy.Decide | apps/web/proxy.ts:6-26 | A redirect always goes home and carries the requested path. |
| Proxy.ProtectedIff | apps/web/proxy.ts:4-11 | Protected paths are exactly `/chat` and the paths below it. |
| Proxy.SiblingNotProtected | apps/web/proxy.ts:9-11 | `/chatroom` is not protected, `/chat/42` is. |
| Proxy.PassesIff | apps/web/proxy.ts:13-25 | A request passes exactly when its path is unprotected or it has a non-empty session cookie; otherwise it is redirected home with its path. |
| Proxy.UnprotectedIgnoresCookies | apps/web/proxy.ts:13-15 | Cookies never matter on an unprotected path. |

## Left out

- Timing: the request timeouts, the mock's 500 ms start delay and 30 ms per-chunk pause, and the retry sleeps. Timeouts appear only as the `AbortError` they produce, and sleeps as entries in the retry trace.
- The polling timer: a timer tick is the explicit `RagDiscovery.PollTick`. Clearing and re-arming the timer is a field update.
- Logging, the database (the other chat procedures, ownership queries, UUIDs, timestamps) and all rendering. `ChatRouter` takes the stored chat as a value and returns the updated chat.
- `getRagProvider` and the singletons: the provider a turn uses is a parameter.
- The development-mode switch that disables TLS certificate checks (`rag-config.ts`, lines 3-7): it only affects the process environment.
- The JSON format of the scenario file and of the backend answers. Decoding is a parameter.
- RetryWithStatus.EnvSettings: takes the two variables already parsed as integers; `parseInt` of text that is not a number (giving `NaN`) is not modelled.
- The environment-configurable timeouts of `real-rag-provider.ts` (defaults 5000 ms and 30000 ms) are only reflected by the `AbortError` a timeout raises.
- Unicode case mapping: `Lower`/`Upper` map ASCII letters only.
- MockRagProvider.Pieces and RealRagProvider.SliceFrom: lengths and slice positions count Unicode scalar values, whereas JavaScript's `length` and `slice` count UTF-16 code units. For text outside the Basic Multilingual Plane the chunk boundaries and deltas are therefore not promised to match the code's, and a surrogate pair the code would split stays whole.
- MockRagProvider.Match: a scenario's `language` or `domain` is either a string or `null` (`None`). A field missing from the file (`undefined`) is not modelled: `=== null` would not match it, so it would fall out of the language-only and domain-only tiers.
- RagContextSelector.GroupsInvariant: `byLanguage` is a plain object, so a language that lowercases to the name of an `Object.prototype` member (`constructor`, `__proto__`, `toString`, …) finds an inherited value. The code then skips the `[]` initialisation and throws a `TypeError` at `.find`. The model groups such a language like any other: it does not model object-literal lookups reaching the prototype.
- I18nProvider.UndefinedLeavesTemplate: `params[key]` also reads inherited names, so a hole such as `{{constructor}}` is filled with the text of the inherited function even when no parameter of that name is defined. The model reads only the parameters given, and the contract holds only for hole names that are not `Object.prototype` members.
- I18nProvider.CountIsOne: `Number(count) === 1` is recognised only for the number 1 and the string "1". Other strings that coerce to 1 (such as " 1" or "1.0") are treated as not one.
- I18nProvider.GetNestedValue: prototype properties other than the ones the cookie check reaches are not modelled. A translation table is a tree of objects and strings.
- URL encoding of the `callbackUrl` parameter, and Next.js route matching outside `proxy`.
- The iteration order of JavaScript objects with integer-like keys. Groups and keys are kept in insertion order.
- RagContextSelector.DomainSelect: the language is stated to exist, not to be the first capability's spelling. `SelectThenReopen` states what that spelling means for reopening.
- The `auto` choice, language clicks and the open/close state beyond what `SelectThenReopen` uses, because they only set local state.

## Findings

| source | as written | input that shows it | evidently intended | confidence | as-written member | corrected member |
|---|---|---|---|---|---|---|
| apps/server/src/routers/chat.ts:304-308 | The catch block yields the buffered RETRYING events again, even when the try block had already yielded them before the stream failed. | Attempt 1 returns an empty stream. Attempt 2 yields one chunk; then its predict times out, or its next SSE line is not valid JSON, and `predict` rethrows. The events are RETRYING 1, SUCCESS, content, RETRYING 1, ERROR. A connection reset would not show it, because a `terminated` read ends the stream normally. The path is latent while the provider factory always returns the mock, whose `predict` throws only before its first chunk. | Each RETRYING event streamed once: replay the buffer only when the stream never started. | not executed | ChatRouter.RetriesRepeatedAsWritten | ChatRouter.SuccessfulTurn |
| apps/web/src/providers/i18n-provider.tsx:77-77 | `translations[cookieValue]` accepts any name the translations object inherits from `Object.prototype`. | The cookie `ilenia-locale=constructor` makes `constructor` the locale, and every key then renders as the raw key. | Only a known locale (`es`, `eu`, `gl`, `va`) is adopted; anything else keeps Spanish. | not executed | I18nProvider.InheritedNameAdoptedAsWritten | I18nProvider.MountedLocaleIsKnown |
