/** `MockRagProvider`: a deterministic stand-in for a RAG backend that
    answers from a list of canned scenarios. The scenario file is a
    parameter; the 30 ms and 500 ms pauses between chunks are not modelled. */
module MockRagProvider {
  import opened Common
  import opened RagTypes

  /** A canned answer; `None` is JSON `null`. */
  datatype Scenario = Scenario(
    language: Option<string>,
    domain: Option<string>,
    response: string,
    contexts: Option<seq<Context>>)

  const ChunkSize := 10
  const SimulatedFailures := 2
  const GenericResponse :=
    "Mock mode: No matching scenario found for this configuration. Returning generic response."

  // ---------------------------------------------------------------------------
  // getConfig

  /** `x || 'any'` on a nullable string. */
  function OrAny(x: Option<string>): (r: string)
    ensures Truthy(r)
    ensures x.Some? && Truthy(x.value) ==> r == x.value
    ensures !(x.Some? && Truthy(x.value)) ==> r == "any"
  {
    if x.Some? && Truthy(x.value) then x.value else "any"
  }

  function ModeOf(s: Scenario): Mode {
    Mode(OrAny(s.language), OrAny(s.domain))
  }

  function ModesOf(scenarios: seq<Scenario>): (ms: seq<Mode>)
    ensures |ms| == |scenarios|
    ensures forall i :: 0 <= i < |ms| ==> ms[i] == ModeOf(scenarios[i])
  {
    if scenarios == [] then [] else [ModeOf(scenarios[0])] + ModesOf(scenarios[1..])
  }

  /** `filter((v, i, a) => a.findIndex(same as v) === i)` from position `i`
      on: keep an element iff no earlier element equals it. */
  function KeepFirst<T(==,!new)>(a: seq<T>, i: nat): (r: seq<T>)
    requires i <= |a|
    ensures |r| <= |a| - i
    ensures forall x :: x in r <==> x in a[i..] && x !in a[..i]
    ensures Distinct(r)
    decreases |a| - i
  {
    if i == |a| then []
    else
      var rest := KeepFirst(a, i + 1);
      assert a[..i + 1] == a[..i] + [a[i]];
      assert a[i..] == [a[i]] + a[i + 1..];
      assert a[i] !in rest;
      assert forall q :: 0 <= q < |rest| ==> rest[q] in rest;
      (if a[i] !in a[..i] then [a[i]] else []) + rest
  }

  predicate Distinct<T(==)>(a: seq<T>) {
    forall i, j :: 0 <= i < j < |a| ==> a[i] != a[j]
  }

  /** Reference deduplication: walk the list once, remembering what has
      been seen. */
  function Dedup<T(==)>(a: seq<T>, seen: seq<T>): seq<T> {
    if a == [] then []
    else if a[0] in seen then Dedup(a[1..], seen)
    else [a[0]] + Dedup(a[1..], seen + [a[0]])
  }

  /** The index-based filter is the one-pass deduplication. */
  lemma {:induction false} KeepFirstIsDedup<T(!new)>(a: seq<T>, i: nat)
    requires i <= |a|
    ensures KeepFirst(a, i) == Dedup(a[i..], a[..i])
    decreases |a| - i
  {
    if i < |a| {
      KeepFirstIsDedup(a, i + 1);
      assert a[..i + 1] == a[..i] + [a[i]];
      assert a[i..][1..] == a[i + 1..];
      if a[i] in a[..i] {
        DedupSeenSame(a[i + 1..], a[..i + 1], a[..i]);
      }
    }
  }

  /** Only the elements of `seen` matter, not how often or where. */
  lemma {:induction false} DedupSeenSame<T>(a: seq<T>, s1: seq<T>, s2: seq<T>)
    requires forall x :: x in s1 <==> x in s2
    ensures Dedup(a, s1) == Dedup(a, s2)
    decreases |a|
  {
    if a != [] {
      if a[0] in s1 {
        DedupSeenSame(a[1..], s1, s2);
      } else {
        DedupSeenSame(a[1..], s1 + [a[0]], s2 + [a[0]]);
      }
    }
  }

  /** A list without duplicates comes back unchanged. */
  lemma {:induction false} DedupDistinct<T>(a: seq<T>, seen: seq<T>)
    requires Distinct(a)
    requires forall k :: 0 <= k < |a| ==> a[k] !in seen
    ensures Dedup(a, seen) == a
    decreases |a|
  {
    if a != [] {
      assert a[0] !in seen;
      DedupDistinct(a[1..], seen + [a[0]]);
      assert a == [a[0]] + a[1..];
    }
  }

  /** `getConfig()`: one mode per scenario, null fields read as 'any',
      duplicates dropped. */
  function GetConfig(scenarios: seq<Scenario>): (modes: seq<Mode>)
    ensures forall m :: m in modes <==> exists s :: s in scenarios && ModeOf(s) == m
    ensures forall k :: 0 <= k < |modes| ==> Truthy(modes[k].language) && Truthy(modes[k].domain)
    ensures Distinct(modes)
  {
    var ms := ModesOf(scenarios);
    var r := KeepFirst(ms, 0);
    assert forall m :: m in ms <==> exists s :: s in scenarios && ModeOf(s) == m by {
      forall m ensures m in ms ==> exists s :: s in scenarios && ModeOf(s) == m {
        if m in ms {
          var i :| 0 <= i < |ms| && ms[i] == m;
          assert scenarios[i] in scenarios;
        }
      }
      forall m ensures (exists s :: s in scenarios && ModeOf(s) == m) ==> m in ms {
        if s :| s in scenarios && ModeOf(s) == m {
          var i :| 0 <= i < |scenarios| && scenarios[i] == s;
          assert ms[i] == m;
        }
      }
    }
    assert ms[..0] == [] && ms[0..] == ms;
    assert forall k :: 0 <= k < |r| ==> r[k] in r;
    r
  }

  /** `getConfig` is the one-pass deduplication of the scenarios' modes. */
  lemma GetConfigDedups(scenarios: seq<Scenario>)
    ensures GetConfig(scenarios) == Dedup(ModesOf(scenarios), [])
  {
    var ms := ModesOf(scenarios);
    KeepFirstIsDedup(ms, 0);
    assert ms[..0] == [] && ms[0..] == ms;
  }

  // ---------------------------------------------------------------------------
  // configure

  /** `configure(params)`: a given field is kept, a missing language
      defaults to 'es' and a missing domain to 'general'. */
  function Configure(params: ConfigureRequest): (m: Mode)
    ensures Given(params.language) ==> m.language == params.language.value
    ensures !Given(params.language) ==> m.language == "es"
    ensures Given(params.domain) ==> m.domain == params.domain.value
    ensures !Given(params.domain) ==> m.domain == "general"
  {
    if Given(params.language) && Given(params.domain) then Mode(params.language.value, params.domain.value)
    else if Given(params.language) then Mode(params.language.value, "general")
    else if Given(params.domain) then Mode("es", params.domain.value)
    else Mode("es", "general")
  }

  /** The chosen mode never has an empty field, and configuring with it
      gives it back. */
  lemma ConfigureIsStable(params: ConfigureRequest)
    ensures Truthy(Configure(params).language) && Truthy(Configure(params).domain)
    ensures var m := Configure(params);
      Configure(ConfigureRequest(params.prompt, params.availableConfigs, Some(m.language), Some(m.domain))) == m
  {
  }

  // ---------------------------------------------------------------------------
  // predict

  /** `scenarios.find(p)`. */
  function Find(scenarios: seq<Scenario>, p: Scenario -> bool): (r: Option<Scenario>)
    ensures r.None? ==> forall k :: 0 <= k < |scenarios| ==> !p(scenarios[k])
    ensures r.Some? ==> exists k :: 0 <= k < |scenarios| && scenarios[k] == r.value && p(r.value)
                                    && forall j :: 0 <= j < k ==> !p(scenarios[j])
  {
    if scenarios == [] then None
    else if p(scenarios[0]) then Some(scenarios[0])
    else
      var r := Find(scenarios[1..], p);
      assert forall k :: 1 <= k < |scenarios| ==> scenarios[k] == scenarios[1..][k - 1];
      if r.Some? then
        var k :| 0 <= k < |scenarios[1..]| && scenarios[1..][k] == r.value && p(r.value)
                 && forall j :: 0 <= j < k ==> !p(scenarios[1..][j]);
        assert scenarios[k + 1] == r.value;
        r
      else r
  }

  /** The answer used when no scenario matches. */
  function Generic(): Scenario {
    Scenario(None, None, GenericResponse, Some([]))
  }

  predicate Exact(language: string, domain: string, s: Scenario) {
    s.language == Some(language) && s.domain == Some(domain)
  }

  predicate LanguageOnly(language: string, s: Scenario) {
    s.language == Some(language) && s.domain.None?
  }

  predicate DomainOnly(domain: string, s: Scenario) {
    s.language.None? && s.domain == Some(domain)
  }

  /** The scenario `predict` answers from: the first exact match, else the
      first for the language with a null domain, else the first for the
      domain with a null language, else the generic answer. */
  function Match(scenarios: seq<Scenario>, language: string, domain: string): Scenario {
    var exact := Find(scenarios, s => Exact(language, domain, s));
    if exact.Some? then exact.value
    else
      var byLanguage := Find(scenarios, s => LanguageOnly(language, s));
      if byLanguage.Some? then byLanguage.value
      else
        var byDomain := Find(scenarios, s => DomainOnly(domain, s));
        if byDomain.Some? then byDomain.value
        else Generic()
  }

  /** How well a scenario answers a request: 0 for an exact match, 1 for the
      language with a null domain, 2 for the domain with a null language, 3
      for no match. The three kinds exclude each other. */
  function Rank(language: string, domain: string, s: Scenario): (n: nat)
    ensures n <= 3
    ensures n == 0 <==> Exact(language, domain, s)
    ensures n == 1 <==> LanguageOnly(language, s)
    ensures n == 2 <==> DomainOnly(domain, s)
  {
    if Exact(language, domain, s) then 0
    else if LanguageOnly(language, s) then 1
    else if DomainOnly(domain, s) then 2
    else 3
  }

  /** Scenario `k` comes first in the order "better rank, then earlier in
      the file". */
  predicate Best(scenarios: seq<Scenario>, language: string, domain: string, k: nat)
    requires k < |scenarios|
  {
    forall j :: 0 <= j < |scenarios| ==>
      Rank(language, domain, scenarios[k]) < Rank(language, domain, scenarios[j])
      || (Rank(language, domain, scenarios[k]) == Rank(language, domain, scenarios[j]) && k <= j)
  }

  /** The match priority: `predict` answers from the scenario of best rank,
      the earliest among equals, and falls back to the generic answer
      exactly when no scenario matches at all. */
  lemma MatchPriority(scenarios: seq<Scenario>, language: string, domain: string)
    ensures (forall k :: 0 <= k < |scenarios| ==> Rank(language, domain, scenarios[k]) == 3) ==>
              Match(scenarios, language, domain) == Generic()
    ensures (exists k :: 0 <= k < |scenarios| && Rank(language, domain, scenarios[k]) < 3) ==>
              exists k :: 0 <= k < |scenarios| && Match(scenarios, language, domain) == scenarios[k]
                          && Rank(language, domain, scenarios[k]) < 3 && Best(scenarios, language, domain, k)
  {
    var exact := Find(scenarios, s => Exact(language, domain, s));
    var byLanguage := Find(scenarios, s => LanguageOnly(language, s));
    var byDomain := Find(scenarios, s => DomainOnly(domain, s));
    if exact.Some? {
      var k :| 0 <= k < |scenarios| && scenarios[k] == exact.value && Exact(language, domain, exact.value)
               && forall j :: 0 <= j < k ==> !Exact(language, domain, scenarios[j]);
      assert Best(scenarios, language, domain, k);
    } else if byLanguage.Some? {
      var k :| 0 <= k < |scenarios| && scenarios[k] == byLanguage.value && LanguageOnly(language, byLanguage.value)
               && forall j :: 0 <= j < k ==> !LanguageOnly(language, scenarios[j]);
      assert Best(scenarios, language, domain, k);
    } else if byDomain.Some? {
      var k :| 0 <= k < |scenarios| && scenarios[k] == byDomain.value && DomainOnly(domain, byDomain.value)
               && forall j :: 0 <= j < k ==> !DomainOnly(domain, scenarios[j]);
      assert Best(scenarios, language, domain, k);
    } else {
      assert forall k :: 0 <= k < |scenarios| ==> Rank(language, domain, scenarios[k]) == 3;
    }
  }

  /** A language-only scenario beats an earlier scenario for another
      language and domain. */
  lemma LanguageFallbackExample()
    ensures Match([Scenario(Some("eu"), Some("legal"), "a", None), Scenario(Some("es"), None, "b", None)],
                  "es", "general").response == "b"
  {
    var ss := [Scenario(Some("eu"), Some("legal"), "a", None), Scenario(Some("es"), None, "b", None)];
    assert !Exact("es", "general", ss[0]) && !Exact("es", "general", ss[1]);
    assert LanguageOnly("es", ss[1]);
    MatchPriority(ss, "es", "general");
    assert Rank("es", "general", ss[0]) == 3;
  }

  /** `while (cursor < length) yield slice(cursor, cursor + 10)`. */
  function Pieces(text: string): (ps: seq<string>)
    ensures Concat(ps) == text
    ensures forall k :: 0 <= k < |ps| ==> 1 <= |ps[k]| <= ChunkSize
    ensures forall k :: 0 <= k < |ps| - 1 ==> |ps[k]| == ChunkSize
    decreases |text|
  {
    if text == [] then []
    else if |text| <= ChunkSize then
      assert [text][1..] == [];
      [text]
    else
      var rest := Pieces(text[ChunkSize..]);
      assert text == text[..ChunkSize] + text[ChunkSize..];
      assert ([text[..ChunkSize]] + rest)[1..] == rest;
      [text[..ChunkSize]] + rest
  }

  /** The stream of a matched scenario: its text in chunks of at most ten
      characters with null contexts, then one empty chunk carrying the
      scenario's contexts, or an empty list when it has none. */
  function Answer(m: Scenario): (chunks: seq<RagChunk>)
    ensures |chunks| >= 1
    ensures Text(chunks) == m.response
    ensures forall k :: 0 <= k < |chunks| - 1 ==>
              chunks[k].contexts.None? && 1 <= |chunks[k].response| <= ChunkSize
    ensures Last(chunks) == RagChunk("", Some(m.contexts.GetOr([])))
  {
    var ps := Pieces(m.response);
    var text := TextChunks(ps);
    var last := RagChunk("", Some(m.contexts.GetOr([])));
    TextAppend(text, [last]);
    assert Text([last]) == "" + Text([]);
    text + [last]
  }

  function TextChunks(ps: seq<string>): (cs: seq<RagChunk>)
    ensures |cs| == |ps|
    ensures forall k :: 0 <= k < |cs| ==> cs[k] == RagChunk(ps[k], None)
    ensures Text(cs) == Concat(ps)
  {
    if ps == [] then [] else [RagChunk(ps[0], None)] + TextChunks(ps[1..])
  }

  /** The failure-simulation counter: `predictCallCount`. */
  datatype MockState = MockState(predictCallCount: nat)

  /** One drained `predict` call: what the generator yields and throws, and
      the counter afterwards. With simulation on, each call counts, and the
      first two calls since the last reset throw; a stream read to its end
      resets the counter. */
  function Predict(st: MockState, simulate: bool, scenarios: seq<Scenario>, params: PredictRequest)
    : (r: (Drained<RagChunk>, MockState))
    ensures simulate && st.predictCallCount < SimulatedFailures ==>
              r == (Drained([], Failed(Fail("Simulated RAG failure (attempt " + IntToString(st.predictCallCount + 1)
                                            + "/" + IntToString(SimulatedFailures + 1) + ")"))),
                    MockState(st.predictCallCount + 1))
    ensures !(simulate && st.predictCallCount < SimulatedFailures) ==>
              r.0.end == Completed && r.1 == MockState(0)
              && Text(r.0.items) == Match(scenarios, params.language, params.domain).response
  {
    var count := if simulate then st.predictCallCount + 1 else st.predictCallCount;
    if simulate && count <= SimulatedFailures then
      (Drained([], Failed(Fail("Simulated RAG failure (attempt " + IntToString(count)
                               + "/" + IntToString(SimulatedFailures + 1) + ")"))),
       MockState(count))
    else
      (Drained(Answer(Match(scenarios, params.language, params.domain)), Completed), MockState(0))
  }

  /** With simulation on and a fresh counter, three calls in a row fail,
      fail, then answer, and the counter is back at zero. */
  lemma SimulationFailsTwiceThenAnswers(scenarios: seq<Scenario>, p1: PredictRequest, p2: PredictRequest, p3: PredictRequest)
    ensures var r1 := Predict(MockState(0), true, scenarios, p1);
      var r2 := Predict(r1.1, true, scenarios, p2);
      var r3 := Predict(r2.1, true, scenarios, p3);
      && r1.0 == Drained([], Failed(Fail("Simulated RAG failure (attempt 1/3)")))
      && r2.0 == Drained([], Failed(Fail("Simulated RAG failure (attempt 2/3)")))
      && r3.0 == Drained(Answer(Match(scenarios, p3.language, p3.domain)), Completed)
      && r3.1 == MockState(0)
  {
    assert IntToString(1) == "1" && IntToString(2) == "2" && IntToString(3) == "3";
    assert "Simulated RAG failure (attempt " + "1" + "/" + "3" + ")" == "Simulated RAG failure (attempt 1/3)";
    assert "Simulated RAG failure (attempt " + "2" + "/" + "3" + ")" == "Simulated RAG failure (attempt 2/3)";
    var r1 := Predict(MockState(0), true, scenarios, p1);
    assert r1.1 == MockState(1);
    var r2 := Predict(r1.1, true, scenarios, p2);
    assert r2.1 == MockState(2);
  }

  /** Without simulation a call never fails and leaves the counter at zero. */
  lemma NoSimulationNeverFails(st: MockState, scenarios: seq<Scenario>, params: PredictRequest)
    ensures Predict(st, false, scenarios, params) == (Drained(Answer(Match(scenarios, params.language, params.domain)), Completed), MockState(0))
  {
  }
}
