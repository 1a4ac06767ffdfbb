/** `RagDiscoveryService` of `rag-discovery.ts`: which backend serves which
    (language, domain) pair. The capability map is rebuilt from every
    server's `/get_config` (or, in mock mode, from the mock provider's modes)
    and answers lookups with a fixed three-step fallback.

    The map is a JavaScript `Map`, whose keys keep their insertion order; it
    is modelled as a list of entries with distinct keys. The network is an
    oracle from the request to the response; the polling timer is a
    recorded interval plus an explicit tick. */
module RagDiscovery {
  import opened Common
  import opened RagTypes
  import RealRagProvider
  import MockRagProvider

  const MockUrl := "mock-provider"
  const Wildcard := "*"

  // ---------------------------------------------------------------------------
  // Keys

  /** One side of a key: null and 'any' are the wildcard, anything else is
      lowercased. */
  function KeyPart(x: Option<string>): string {
    if x.None? || x.value == "any" then Wildcard else Lower(x.value)
  }

  /** `normalizeKey(language, domain)`: "language-domain". */
  function NormalizeKey(language: Option<string>, domain: Option<string>): (k: string)
    ensures k == KeyPart(language) + "-" + KeyPart(domain)
  {
    KeyPart(language) + "-" + KeyPart(domain)
  }

  function KeyOf(m: Mode): string {
    NormalizeKey(Some(m.language), Some(m.domain))
  }

  /** Keys ignore case, except that "any" is only a wildcard in lower case. */
  lemma NormalizeKeyIgnoresCase(language: string, domain: string)
    requires Lower(language) != "any" && Lower(domain) != "any"
    ensures NormalizeKey(Some(language), Some(domain)) == NormalizeKey(Some(Lower(language)), Some(Lower(domain)))
    ensures NormalizeKey(Some(language), None) == NormalizeKey(Some(Lower(language)), None)
    ensures NormalizeKey(None, Some(domain)) == NormalizeKey(None, Some(Lower(domain)))
  {
    LowerIdempotent(language);
    LowerIdempotent(domain);
  }

  /** The exception: "ANY" is an ordinary language, "any" the wildcard. */
  lemma UpperCaseAnyIsNotWildcard(domain: Option<string>)
    ensures NormalizeKey(Some("ANY"), domain) != NormalizeKey(Some("any"), domain)
  {
    assert NormalizeKey(Some("ANY"), domain)[0] == 'a';
    assert NormalizeKey(Some("any"), domain)[0] == '*';
  }

  // ---------------------------------------------------------------------------
  // The capability map

  datatype Entry = Entry(key: string, url: string)

  predicate WellFormed(m: seq<Entry>) {
    forall i, j :: 0 <= i < j < |m| ==> m[i].key != m[j].key
  }

  /** `map.get(key)`, `None` when absent (`map.has(key)` is `Get(..).Some?`). */
  function Get(m: seq<Entry>, key: string): (r: Option<string>)
    ensures r.None? <==> forall i :: 0 <= i < |m| ==> m[i].key != key
    ensures r.Some? ==> Entry(key, r.value) in m
  {
    if m == [] then None
    else if m[0].key == key then Some(m[0].url)
    else
      var r := Get(m[1..], key);
      assert forall i :: 1 <= i < |m| ==> m[i] == m[1..][i - 1];
      r
  }

  /** In a map with distinct keys, `get` finds exactly the stored entry. */
  lemma GetMember(m: seq<Entry>, key: string, url: string)
    requires WellFormed(m)
    ensures Get(m, key) == Some(url) <==> Entry(key, url) in m
  {
    if Entry(key, url) in m {
      var i :| 0 <= i < |m| && m[i] == Entry(key, url);
      var j :| 0 <= j < |m| && m[j] == Entry(key, Get(m, key).value);
      assert i == j;
    }
  }

  /** The position of `key`, if it is stored. */
  function KeyIndex(m: seq<Entry>, key: string): (r: Option<nat>)
    ensures r.None? <==> forall i :: 0 <= i < |m| ==> m[i].key != key
    ensures r.Some? ==> r.value < |m| && m[r.value].key == key
  {
    if m == [] then None
    else if m[0].key == key then Some(0)
    else
      match KeyIndex(m[1..], key)
      case None =>
        assert forall i :: 1 <= i < |m| ==> m[i] == m[1..][i - 1];
        None
      case Some(i) => Some(i + 1)
  }

  /** `map.set(key, url)`: an existing key keeps its place and takes the new
      value, a new key goes last. */
  function Put(m: seq<Entry>, key: string, url: string): (r: seq<Entry>)
    requires WellFormed(m)
    ensures WellFormed(r)
    ensures forall e :: e in r <==> e == Entry(key, url) || (e in m && e.key != key)
    ensures forall i :: 0 <= i < |m| && m[i].key == key ==>
              && |r| == |m| && r[i] == Entry(key, url)
              && forall j :: 0 <= j < |m| && j != i ==> r[j] == m[j]
    ensures (forall i :: 0 <= i < |m| ==> m[i].key != key) ==> r == m + [Entry(key, url)]
  {
    match KeyIndex(m, key)
    case None =>
      var r := m + [Entry(key, url)];
      assert forall e :: e in r <==> e == Entry(key, url) || e in m;
      r
    case Some(i) =>
      var r := m[i := Entry(key, url)];
      assert r[i] == Entry(key, url);
      assert forall e :: e in m && e.key != key ==> e in r by {
        forall e | e in m && e.key != key ensures e in r {
          var j :| 0 <= j < |m| && m[j] == e;
          assert r[j] == e;
        }
      }
      assert forall e :: e in r && e != Entry(key, url) ==> e in m && e.key != key by {
        forall e | e in r && e != Entry(key, url) ensures e in m && e.key != key {
          var j :| 0 <= j < |r| && r[j] == e;
          assert j != i && m[j] == e;
        }
      }
      r
  }

  /** After `set`, the key holds the new URL and every other key is as
      before. */
  lemma PutGet(m: seq<Entry>, key: string, url: string, k: string)
    requires WellFormed(m)
    ensures Get(Put(m, key, url), k) == if k == key then Some(url) else Get(m, k)
  {
    var r := Put(m, key, url);
    if k == key {
      GetMember(r, key, url);
    } else {
      if Get(m, k).Some? {
        GetMember(m, k, Get(m, k).value);
        GetMember(r, k, Get(m, k).value);
      } else if Get(r, k).Some? {
        GetMember(r, k, Get(r, k).value);
        GetMember(m, k, Get(r, k).value);
      }
    }
  }

  /** Every mode of one server's configuration, registered under `url`. */
  function AddModes(m: seq<Entry>, modes: seq<Mode>, url: string): (r: seq<Entry>)
    requires WellFormed(m)
    ensures WellFormed(r)
    decreases |modes|
  {
    if modes == [] then m else AddModes(Put(m, KeyOf(modes[0]), url), modes[1..], url)
  }

  predicate Offers(modes: seq<Mode>, key: string) {
    exists j :: 0 <= j < |modes| && KeyOf(modes[j]) == key
  }

  /** After registering a server's modes, exactly their keys point at it. */
  lemma {:induction false} AddModesGet(m: seq<Entry>, modes: seq<Mode>, url: string, key: string)
    requires WellFormed(m)
    ensures Get(AddModes(m, modes, url), key) == if Offers(modes, key) then Some(url) else Get(m, key)
    decreases |modes|
  {
    if modes != [] {
      AddModesGet(Put(m, KeyOf(modes[0]), url), modes[1..], url, key);
      PutGet(m, KeyOf(modes[0]), url, key);
      assert forall j :: 1 <= j < |modes| ==> modes[j] == modes[1..][j - 1];
      if Offers(modes, key) && !Offers(modes[1..], key) {
        var j :| 0 <= j < |modes| && KeyOf(modes[j]) == key;
        assert j == 0;
      }
      if Offers(modes[1..], key) {
        var j :| 0 <= j < |modes[1..]| && KeyOf(modes[1..][j]) == key;
        assert KeyOf(modes[j + 1]) == key;
      }
    }
  }

  // ---------------------------------------------------------------------------
  // Lookup

  /** `findBackend(language, domain)`: the exact key, else the language with
      any domain, else the domain with any language, else nothing. */
  function FindBackend(m: seq<Entry>, language: string, domain: string): (r: Option<string>)
    ensures Get(m, NormalizeKey(Some(language), Some(domain))).Some? ==>
              r == Get(m, NormalizeKey(Some(language), Some(domain)))
    ensures Get(m, NormalizeKey(Some(language), Some(domain))).None?
            && Get(m, NormalizeKey(Some(language), None)).Some? ==>
              r == Get(m, NormalizeKey(Some(language), None))
    ensures Get(m, NormalizeKey(Some(language), Some(domain))).None?
            && Get(m, NormalizeKey(Some(language), None)).None? ==>
              r == Get(m, NormalizeKey(None, Some(domain)))
  {
    var exact := Get(m, NormalizeKey(Some(language), Some(domain)));
    if exact.Some? then exact
    else
      var byLanguage := Get(m, NormalizeKey(Some(language), None));
      if byLanguage.Some? then byLanguage
      else Get(m, NormalizeKey(None, Some(domain)))
  }

  /** What lookup returns is always the URL registered under one of the three
      candidate keys, and it returns nothing only when none is registered. */
  lemma FindBackendSound(m: seq<Entry>, language: string, domain: string)
    ensures var r := FindBackend(m, language, domain);
      var candidates := [NormalizeKey(Some(language), Some(domain)),
                         NormalizeKey(Some(language), None),
                         NormalizeKey(None, Some(domain))];
      && (r.Some? ==> exists c, i :: c in candidates && 0 <= i < |m| && m[i] == Entry(c, r.value))
      && (r.None? <==> forall c, i :: c in candidates && 0 <= i < |m| ==> m[i].key != c)
  {
  }

  /** Lookup ignores the case of its arguments (other than the "any"
      spelling). */
  lemma FindBackendIgnoresCase(m: seq<Entry>, language: string, domain: string)
    requires Lower(language) != "any" && Lower(domain) != "any"
    ensures FindBackend(m, language, domain) == FindBackend(m, Lower(language), Lower(domain))
  {
    NormalizeKeyIgnoresCase(language, domain);
  }

  // ---------------------------------------------------------------------------
  // The capability list

  /** One entry of `getCapabilities()`; `None` is `null`. */
  datatype Capability = Capability(language: Option<string>, domain: Option<string>, labelText: string)

  const MultilingualLabel := "Multiling\U{00FC}e"
  const GeneralLabel := "General"
  /** Between the domain and language parts of a label; the context
      selector's trigger uses the same separator. */
  const LabelSeparator := " \U{00B7} "

  /** `s.charAt(0).toUpperCase() + s.slice(1)` */
  function Capitalize(s: string): (r: string)
    ensures |r| == |s|
    ensures s != [] ==> r[0] == UpperChar(s[0]) && r[1..] == s[1..]
  {
    if s == [] then [] else Upper(s[..1]) + s[1..]
  }

  function Label(language: Option<string>, domain: Option<string>): string {
    var langLabel := if language.Some? && Truthy(language.value) then Upper(language.value) else MultilingualLabel;
    var domLabel := if domain.Some? && Truthy(domain.value) then Capitalize(domain.value) else GeneralLabel;
    domLabel + LabelSeparator + langLabel
  }

  /** A key read back: the first two '-'-separated parts, the wildcard as
      `null` (a key without a second part has no domain). */
  function CapabilityOf(key: string): Capability {
    var parts := Split(key, '-');
    var lang := parts[0];
    var dom := if |parts| >= 2 then Some(parts[1]) else None;
    var language := if lang == Wildcard then None else Some(lang);
    var domain := if dom == Some(Wildcard) then None else dom;
    Capability(language, domain, Label(language, domain))
  }

  /** `getCapabilities()`: one entry per key, in the map's order. */
  function GetCapabilities(m: seq<Entry>): (caps: seq<Capability>)
    ensures |caps| == |m|
    ensures forall i :: 0 <= i < |m| ==> caps[i] == CapabilityOf(m[i].key)
  {
    if m == [] then [] else [CapabilityOf(m[0].key)] + GetCapabilities(m[1..])
  }

  /** Reading a key back inverts `normalizeKey` for parts without '-': the
      lowercased names come back, the wildcard as null. */
  lemma CapabilityOfInvertsKey(language: Option<string>, domain: Option<string>)
    requires '-' !in KeyPart(language) && '-' !in KeyPart(domain)
    requires language.Some? ==> Lower(language.value) != Wildcard
    requires domain.Some? ==> Lower(domain.value) != Wildcard
    ensures var c := CapabilityOf(NormalizeKey(language, domain));
      && c.language == (if KeyPart(language) == Wildcard then None else Some(KeyPart(language)))
      && c.domain == (if KeyPart(domain) == Wildcard then None else Some(KeyPart(domain)))
  {
    SplitPair(KeyPart(language), KeyPart(domain), '-');
    assert KeyPart(language) + "-" + KeyPart(domain) == KeyPart(language) + ['-'] + KeyPart(domain);
  }

  /** Labels: the domain capitalised, the language in upper case, and the
      wildcard named "General" or "Multilingüe". */
  lemma LabelExamples()
    ensures Label(Some("eu"), Some("legal")) == "Legal \U{00B7} EU"
    ensures Label(None, Some("general")) == "General \U{00B7} Multiling\U{00FC}e"
    ensures Label(Some("es"), None) == "General \U{00B7} ES"
  {
    UpperCodes();
    CapitalizedDomains();
  }

  lemma UpperCodes()
    ensures Upper("eu") == "EU" && Upper("es") == "ES"
  {
    assert Upper("eu")[0] == 'E' && Upper("eu")[1] == 'U';
    assert Upper("es")[0] == 'E' && Upper("es")[1] == 'S';
  }

  lemma CapitalizedDomains()
    ensures Capitalize("legal") == "Legal" && Capitalize("general") == "General"
  {
    assert Upper("l")[0] == 'L';
    assert Upper("g")[0] == 'G';
  }

  // ---------------------------------------------------------------------------
  // Refresh

  /** The request of `fetchConfig`: a plain GET, with no Basic header. */
  function DiscoveryRequest(url: string): RealRagProvider.HttpRequest {
    RealRagProvider.HttpRequest(RealRagProvider.Get, url + "/get_config", map[], RealRagProvider.NoBody)
  }

  /** `fetchConfig(url)`: any non-2xx status (401 included) is an error. */
  function FetchConfig(url: string,
                       fetch: RealRagProvider.HttpRequest -> Result<RealRagProvider.HttpResponse<Result<seq<Mode>, Error>>, Error>)
    : (r: Result<seq<Mode>, Error>)
    ensures fetch(DiscoveryRequest(url)).Failure? ==> r == Failure(fetch(DiscoveryRequest(url)).error)
    ensures fetch(DiscoveryRequest(url)).Success? && !RealRagProvider.Ok(fetch(DiscoveryRequest(url)).value.status) ==>
              r == Failure(Fail("HTTP " + IntToString(fetch(DiscoveryRequest(url)).value.status)))
    ensures fetch(DiscoveryRequest(url)).Success? && RealRagProvider.Ok(fetch(DiscoveryRequest(url)).value.status) ==>
              r == fetch(DiscoveryRequest(url)).value.body
  {
    match fetch(DiscoveryRequest(url))
    case Failure(e) => Failure(e)
    case Success(resp) =>
      if !RealRagProvider.Ok(resp.status) then Failure(Fail("HTTP " + IntToString(resp.status)))
      else resp.body
  }

  /** `(RAG_SERVERS || '').split(',').filter(Boolean)`: empty pieces are
      dropped, the rest are kept untrimmed. */
  function ServerList(pieces: seq<string>): (urls: seq<string>)
    ensures forall k :: 0 <= k < |urls| ==> Truthy(urls[k])
    ensures forall k :: 0 <= k < |pieces| && Truthy(pieces[k]) ==> pieces[k] in urls
  {
    KeepTruthy(pieces)
  }

  /** The server list keeps the non-empty pieces in order, repetitions
      included. */
  lemma ServerListAppend(a: seq<string>, b: seq<string>)
    ensures ServerList(a + b) == ServerList(a) + ServerList(b)
  {
    KeepTruthyAppend(a, b);
  }

  /** One piece is listed exactly when it is non-empty. */
  lemma ServerListSingleton(p: string)
    ensures ServerList([p]) == if Truthy(p) then [p] else []
  {
    KeepTruthySingleton(p);
  }

  /** One server of the refresh loop: its modes registered under its
      trimmed URL, or nothing when fetching its configuration fails. */
  function AddServer(m: seq<Entry>, url: string,
                     fetch: RealRagProvider.HttpRequest -> Result<RealRagProvider.HttpResponse<Result<seq<Mode>, Error>>, Error>)
    : (r: seq<Entry>)
    requires WellFormed(m)
    ensures WellFormed(r)
  {
    match FetchConfig(Trim(url), fetch)
    case Failure(_) => m
    case Success(modes) => AddModes(m, modes, Trim(url))
  }

  /** The refresh loop over the servers, in order. */
  function BuildMap(m: seq<Entry>, servers: seq<string>,
                    fetch: RealRagProvider.HttpRequest -> Result<RealRagProvider.HttpResponse<Result<seq<Mode>, Error>>, Error>)
    : (r: seq<Entry>)
    requires WellFormed(m)
    ensures WellFormed(r)
    decreases |servers|
  {
    if servers == [] then m else AddServer(BuildMap(m, AllButLast(servers), fetch), Last(servers), fetch)
  }

  /** `refreshCapabilities()`: with no servers the published map is left as
      it is; otherwise a new map is built from scratch and replaces it. */
  function Refresh(current: seq<Entry>, serversEnv: string,
                   fetch: RealRagProvider.HttpRequest -> Result<RealRagProvider.HttpResponse<Result<seq<Mode>, Error>>, Error>)
    : (r: seq<Entry>)
    ensures WellFormed(r) || r == current
    ensures ServerList(Split(serversEnv, ',')) == [] ==> r == current
  {
    var servers := ServerList(Split(serversEnv, ','));
    if servers == [] then current else BuildMap([], servers, fetch)
  }

  /** Whether a server, once fetched, offers `key`. */
  predicate ServerOffers(url: string, key: string,
                         fetch: RealRagProvider.HttpRequest -> Result<RealRagProvider.HttpResponse<Result<seq<Mode>, Error>>, Error>)
  {
    FetchConfig(Trim(url), fetch).Success? && Offers(FetchConfig(Trim(url), fetch).value, key)
  }

  /** Reference: the owner of a key is the last server in the list that
      offers it. */
  function LastOwner(servers: seq<string>, key: string,
                     fetch: RealRagProvider.HttpRequest -> Result<RealRagProvider.HttpResponse<Result<seq<Mode>, Error>>, Error>)
    : Option<string>
  {
    if servers == [] then None
    else if ServerOffers(Last(servers), key, fetch) then Some(Trim(Last(servers)))
    else LastOwner(AllButLast(servers), key, fetch)
  }

  lemma AddServerGet(m: seq<Entry>, url: string, key: string,
                     fetch: RealRagProvider.HttpRequest -> Result<RealRagProvider.HttpResponse<Result<seq<Mode>, Error>>, Error>)
    requires WellFormed(m)
    ensures Get(AddServer(m, url, fetch), key) == if ServerOffers(url, key, fetch) then Some(Trim(url)) else Get(m, key)
  {
    if FetchConfig(Trim(url), fetch).Success? {
      AddModesGet(m, FetchConfig(Trim(url), fetch).value, Trim(url), key);
    }
  }

  /** After the refresh loop, each key points at the last server offering
      it, and keys no server offers keep their earlier value. */
  lemma {:induction false} BuildMapOwner(m: seq<Entry>, servers: seq<string>, key: string,
                                         fetch: RealRagProvider.HttpRequest -> Result<RealRagProvider.HttpResponse<Result<seq<Mode>, Error>>, Error>)
    requires WellFormed(m)
    ensures Get(BuildMap(m, servers, fetch), key)
         == if LastOwner(servers, key, fetch).Some? then LastOwner(servers, key, fetch) else Get(m, key)
    decreases |servers|
  {
    if servers != [] {
      BuildMapOwner(m, AllButLast(servers), key, fetch);
      AddServerGet(BuildMap(m, AllButLast(servers), fetch), Last(servers), key, fetch);
    }
  }

  /** A refresh with servers configured: every key points at the trimmed URL
      of the last server that offers it, and no other key is present. */
  lemma RefreshOwner(current: seq<Entry>, serversEnv: string, key: string,
                     fetch: RealRagProvider.HttpRequest -> Result<RealRagProvider.HttpResponse<Result<seq<Mode>, Error>>, Error>)
    requires ServerList(Split(serversEnv, ',')) != []
    ensures Get(Refresh(current, serversEnv, fetch), key) == LastOwner(ServerList(Split(serversEnv, ',')), key, fetch)
  {
    BuildMapOwner([], ServerList(Split(serversEnv, ',')), key, fetch);
  }

  /** A server whose configuration cannot be fetched contributes nothing. */
  lemma {:induction false} FailingServerIgnored(m: seq<Entry>, before: seq<string>, url: string, after: seq<string>,
                                                fetch: RealRagProvider.HttpRequest -> Result<RealRagProvider.HttpResponse<Result<seq<Mode>, Error>>, Error>)
    requires WellFormed(m)
    requires FetchConfig(Trim(url), fetch).Failure?
    ensures BuildMap(m, before + [url] + after, fetch) == BuildMap(m, before + after, fetch)
    decreases |after|
  {
    var with, without := before + [url] + after, before + after;
    if after == [] {
      assert with == before + [url];
      assert AllButLast(with) == before && Last(with) == url;
      assert without == before;
    } else {
      assert AllButLast(with) == before + [url] + AllButLast(after);
      assert AllButLast(without) == before + AllButLast(after);
      assert Last(with) == Last(after) == Last(without);
      FailingServerIgnored(m, before, url, AllButLast(after), fetch);
    }
  }

  // ---------------------------------------------------------------------------
  // The service

  datatype Discovery = Discovery(capabilities: seq<Entry>, isMock: bool, pollingMs: Option<int>)

  function Fresh(): Discovery {
    Discovery([], false, None)
  }

  /** `initialize()`: mock mode only when `RAG_PROVIDER` is exactly "mock";
      then every mode of the mock provider maps to the placeholder URL.
      Otherwise one refresh. */
  function Initialize(svc: Discovery, providerEnv: Option<string>, serversEnv: string,
                      scenarios: seq<MockRagProvider.Scenario>,
                      fetch: RealRagProvider.HttpRequest -> Result<RealRagProvider.HttpResponse<Result<seq<Mode>, Error>>, Error>)
    : (r: Discovery)
    ensures r.isMock <==> providerEnv == Some("mock")
    ensures r.pollingMs == svc.pollingMs
  {
    if providerEnv == Some("mock") then
      svc.(isMock := true, capabilities := AddModes([], MockRagProvider.GetConfig(scenarios), MockUrl))
    else
      svc.(isMock := false, capabilities := Refresh(svc.capabilities, serversEnv, fetch))
  }

  /** In mock mode, exactly the keys of the mock provider's modes are
      present, each pointing at the placeholder URL. */
  lemma MockModeMapsEveryMode(svc: Discovery, serversEnv: string, scenarios: seq<MockRagProvider.Scenario>,
                              fetch: RealRagProvider.HttpRequest -> Result<RealRagProvider.HttpResponse<Result<seq<Mode>, Error>>, Error>,
                              key: string)
    ensures var caps := Initialize(svc, Some("mock"), serversEnv, scenarios, fetch).capabilities;
      Get(caps, key) == if Offers(MockRagProvider.GetConfig(scenarios), key) then Some(MockUrl) else None
  {
    AddModesGet([], MockRagProvider.GetConfig(scenarios), MockUrl, key);
  }

  /** `startPolling(intervalMs)`: ignored in mock mode. */
  function StartPolling(svc: Discovery, intervalMs: int): (r: Discovery)
    ensures svc.isMock ==> r == svc
    ensures !svc.isMock ==> r == svc.(pollingMs := Some(intervalMs))
  {
    if svc.isMock then svc else svc.(pollingMs := Some(intervalMs))
  }

  /** One firing of the polling timer: a refresh. */
  function PollTick(svc: Discovery, serversEnv: string,
                    fetch: RealRagProvider.HttpRequest -> Result<RealRagProvider.HttpResponse<Result<seq<Mode>, Error>>, Error>)
    : Discovery
  {
    if svc.pollingMs.Some? then svc.(capabilities := Refresh(svc.capabilities, serversEnv, fetch)) else svc
  }

  /** In mock mode the map loaded at start-up is never replaced by polling. */
  lemma MockModeNeverPolls(svc: Discovery, intervalMs: int, serversEnv: string,
                           fetch: RealRagProvider.HttpRequest -> Result<RealRagProvider.HttpResponse<Result<seq<Mode>, Error>>, Error>)
    requires svc.isMock && svc.pollingMs.None?
    ensures PollTick(StartPolling(svc, intervalMs), serversEnv, fetch) == svc
  {
  }
}
