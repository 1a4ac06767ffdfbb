/** The endpoint and credential registry of `rag-config.ts`: the list of RAG
    servers, the master server that answers `/configure`, and the HTTP Basic
    credentials of each server, read once from three environment variables.

    Environment variables are parameters (an unset variable is the empty
    string, as `process.env.X || ''` makes it); a thrown error is returned
    next to the registry as it stands at the throw. */
module RagConfig {
  import opened Common

  datatype Credentials = Credentials(user: string, password: string)

  /** `RagServerConfig` */
  datatype ServerConfig = ServerConfig(url: string, user: string, password: string, isMaster: bool)

  datatype Registry = Registry(
    servers: seq<ServerConfig>,
    credentials: map<string, Credentials>,
    masterUrl: string,
    initialized: bool)

  /** The freshly constructed service. */
  function Fresh(): Registry {
    Registry([], map[], "", false)
  }

  /** The registry after `initialize()`, and the error it threw, if any. */
  datatype InitResult = InitResult(registry: Registry, error: Option<Error>)

  const NoServersMessage := "RAG_SERVERS is required when RAG_PROVIDER=real"
  const NoMasterMessage := "RAG_MASTER_URL is required when RAG_PROVIDER=real"
  const MasterNotListedMessage := "RAG_MASTER_URL must be one of RAG_SERVERS"
  const BadCredentialMessage := "Invalid credential format. Expected user:password"

  /** `env.split(',').map(s => s.trim()).filter(Boolean)`: the same trimmed
      pieces as the credentials, with the empty ones dropped. */
  function ServerList(pieces: seq<string>): (urls: seq<string>)
    ensures |urls| <= |pieces|
    ensures forall k :: 0 <= k < |urls| ==> urls[k] != ""
    ensures forall k :: 0 <= k < |pieces| && Trim(pieces[k]) != "" ==> Trim(pieces[k]) in urls
  {
    var trimmed := CredentialList(pieces);
    assert forall k :: 0 <= k < |pieces| ==> trimmed[k] == Trim(pieces[k]);
    KeepTruthy(trimmed)
  }

  /** The server list of a concatenation is the concatenation of the server
      lists: order and repetitions are kept. */
  lemma ServerListAppend(a: seq<string>, b: seq<string>)
    ensures ServerList(a + b) == ServerList(a) + ServerList(b)
  {
    CredentialListAppend(a, b);
    KeepTruthyAppend(CredentialList(a), CredentialList(b));
    assert ServerList(a + b) == KeepTruthy(CredentialList(a + b));
    assert ServerList(a) + ServerList(b) == KeepTruthy(CredentialList(a)) + KeepTruthy(CredentialList(b));
  }

  lemma {:induction false} CredentialListAppend(a: seq<string>, b: seq<string>)
    ensures CredentialList(a + b) == CredentialList(a) + CredentialList(b)
  {
    if a == [] {
      assert a + b == b;
    } else {
      assert (a + b)[1..] == a[1..] + b;
      CredentialListAppend(a[1..], b);
    }
  }

  /** One piece contributes its trimmed text, unless that is empty. */
  lemma ServerListSingleton(p: string)
    ensures ServerList([p]) == if Trim(p) != "" then [Trim(p)] else []
  {
    assert CredentialList([p]) == [Trim(p)];
    KeepTruthySingleton(Trim(p));
  }

  /** Every listed URL is trimmed already. */
  lemma ServerListTrimmed(pieces: seq<string>)
    ensures forall k :: 0 <= k < |ServerList(pieces)| ==> Trim(ServerList(pieces)[k]) == ServerList(pieces)[k]
  {
    var urls := ServerList(pieces);
    var trimmed := CredentialList(pieces);
    forall k | 0 <= k < |urls| ensures Trim(urls[k]) == urls[k] {
      assert urls[k] in trimmed;
      var j :| 0 <= j < |trimmed| && trimmed[j] == urls[k];
      TrimTrim(pieces[j]);
    }
  }

  /** `env.split(',').map(c => c.trim())` */
  function CredentialList(pieces: seq<string>): (creds: seq<string>)
    ensures |creds| == |pieces|
    ensures forall k :: 0 <= k < |pieces| ==> creds[k] == Trim(pieces[k])
  {
    if pieces == [] then [] else [Trim(pieces[0])] + CredentialList(pieces[1..])
  }

  /** `credentials[i]?.trim()`, with a missing entry read as empty. The
      entries come from `CredentialList` and are trimmed already; trimming is
      idempotent (`TrimTrim`), so the second `trim` changes nothing. */
  function CredentialAt(creds: seq<string>, i: nat): string {
    if i < |creds| then creds[i] else ""
  }

  /** `parseCredentials`: split at the first ':'; the password may itself
      contain ':'. */
  function ParseCredentials(s: string): (r: Result<Credentials, Error>)
    ensures r.Failure? <==> ':' !in s
    ensures r.Failure? ==> r.error == Fail(BadCredentialMessage)
    ensures r.Success? ==> r.value.user + ":" + r.value.password == s && ':' !in r.value.user
  {
    match IndexOf(s, ':')
    case None => Failure(Fail(BadCredentialMessage))
    case Some(i) =>
      assert s == s[..i] + ":" + s[i + 1..];
      Success(Credentials(s[..i], s[i + 1..]))
  }

  /** Round trip: a user without ':' and any password come back apart. */
  lemma ParseCredentialsRoundTrip(user: string, password: string)
    requires ':' !in user
    ensures ParseCredentials(user + ":" + password) == Success(Credentials(user, password))
  {
    var s := user + ":" + password;
    assert s[..|user|] == user;
    assert s[|user|] == ':';
    assert s[|user| + 1..] == password;
  }

  /** The loop of `initialize` from position `i` on: every server gets an
      entry, paired by position with its credential string; a blank credential
      gives empty user and password and no map entry; a malformed one throws,
      leaving what was built so far. */
  function BuildServers(acc: Registry, urls: seq<string>, creds: seq<string>, i: nat): (r: InitResult)
    requires i <= |urls|
    requires |acc.servers| == i
    ensures r.error.None? ==> r.registry.initialized && |r.registry.servers| == |urls|
    ensures r.error.Some? ==> !r.registry.initialized && r.error.value == Fail(BadCredentialMessage)
    ensures r.registry.masterUrl == acc.masterUrl
    ensures acc.servers <= r.registry.servers && |r.registry.servers| <= |urls|
    ensures forall k :: i <= k < |r.registry.servers| ==>
              r.registry.servers[k] == ExpectedServer(urls, creds, acc.masterUrl, k)
    decreases |urls| - i
  {
    if i == |urls| then InitResult(acc.(initialized := true), None)
    else
      var raw := CredentialAt(creds, i);
      var url := urls[i];
      if raw != "" then
        match ParseCredentials(raw)
        case Failure(e) => InitResult(acc.(initialized := false), Some(e))
        case Success(c) =>
          var next := acc.(servers := acc.servers + [ServerConfig(url, c.user, c.password, url == acc.masterUrl)],
                           credentials := acc.credentials[url := c]);
          assert next.servers[i] == ExpectedServer(urls, creds, acc.masterUrl, i);
          var r := BuildServers(next, urls, creds, i + 1);
          assert r.registry.servers[i] == next.servers[i];
          r
      else
        var next := acc.(servers := acc.servers + [ServerConfig(url, "", "", url == acc.masterUrl)]);
        assert next.servers[i] == ExpectedServer(urls, creds, acc.masterUrl, i);
        var r := BuildServers(next, urls, creds, i + 1);
        assert r.registry.servers[i] == next.servers[i];
        r
  }

  /** `initialize()` */
  function Initialize(reg: Registry, serversEnv: string, credentialsEnv: string, masterEnv: string): (r: InitResult)
    ensures reg.initialized ==> r == InitResult(reg, None)
    ensures r.error.None? ==> r.registry.initialized
    ensures !reg.initialized && r.error.None? ==> r.registry.masterUrl == masterEnv
  {
    if reg.initialized then InitResult(reg, None)
    else
      var urls := ServerList(Split(serversEnv, ','));
      var creds := CredentialList(Split(credentialsEnv, ','));
      if |urls| == 0 then InitResult(reg, Some(Fail(NoServersMessage)))
      else if masterEnv == "" then InitResult(reg, Some(Fail(NoMasterMessage)))
      else if masterEnv !in urls then InitResult(reg, Some(Fail(MasterNotListedMessage)))
      else
        BuildServers(Registry([], map[], masterEnv, false), urls, creds, 0)
  }

  // ---------------------------------------------------------------------------
  // Accessors

  function GetMasterUrl(reg: Registry): string {
    reg.masterUrl
  }

  /** `getServerUrls()`: the configured URLs, in configuration order. */
  function GetServerUrls(reg: Registry): (urls: seq<string>)
    ensures |urls| == |reg.servers|
    ensures forall k :: 0 <= k < |urls| ==> urls[k] == reg.servers[k].url
  {
    UrlsOf(reg.servers)
  }

  function UrlsOf(servers: seq<ServerConfig>): (urls: seq<string>)
    ensures |urls| == |servers|
    ensures forall k :: 0 <= k < |urls| ==> urls[k] == servers[k].url
  {
    if servers == [] then [] else [servers[0].url] + UrlsOf(servers[1..])
  }

  function IsInitialized(reg: Registry): bool {
    reg.initialized
  }

  /** `getAuthHeader(url)`: no header for a URL without credentials, else one
      Basic header over `user:password`, encoded by `base64`. */
  function GetAuthHeader(reg: Registry, url: string, base64: string -> string): (h: map<string, string>)
    ensures url !in reg.credentials ==> h == map[]
    ensures url in reg.credentials ==>
              h.Keys == {"Authorization"}
              && h["Authorization"] == "Basic " + base64(reg.credentials[url].user + ":" + reg.credentials[url].password)
  {
    if url in reg.credentials then
      var c := reg.credentials[url];
      map["Authorization" := "Basic " + base64(c.user + ":" + c.password)]
    else map[]
  }

  // ---------------------------------------------------------------------------
  // What a completed `initialize` built

  /** The server entry position `i` receives. */
  function ExpectedServer(urls: seq<string>, creds: seq<string>, master: string, i: nat): ServerConfig
    requires i < |urls|
  {
    var raw := CredentialAt(creds, i);
    var c := if raw != "" && ParseCredentials(raw).Success? then ParseCredentials(raw).value
             else Credentials("", "");
    ServerConfig(urls[i], c.user, c.password, urls[i] == master)
  }

  /** Positions whose credential is given. */
  predicate HasCredential(creds: seq<string>, i: nat) {
    CredentialAt(creds, i) != ""
  }

  /** Some position from `i` on lists `u` with a non-blank credential. */
  predicate CredentialedFrom(urls: seq<string>, creds: seq<string>, i: nat, u: string)
    decreases |urls| - i
  {
    i < |urls| && ((urls[i] == u && HasCredential(creds, i)) || CredentialedFrom(urls, creds, i + 1, u))
  }

  lemma {:induction false} CredentialedFromExists(urls: seq<string>, creds: seq<string>, i: nat, u: string)
    ensures CredentialedFrom(urls, creds, i, u)
            <==> exists k :: i <= k < |urls| && urls[k] == u && HasCredential(creds, k)
    decreases |urls| - i
  {
    if i < |urls| {
      CredentialedFromExists(urls, creds, i + 1, u);
    }
  }

  /** A later position with the same URL also carries a credential. */
  predicate Overridden(urls: seq<string>, creds: seq<string>, k: nat)
    requires k < |urls|
  {
    CredentialedFrom(urls, creds, k + 1, urls[k])
  }

  /** The loop adds a credential entry exactly for the URLs at positions with
      a non-blank credential. */
  lemma {:induction false} CredentialKeys(acc: Registry, urls: seq<string>, creds: seq<string>, i: nat, u: string)
    requires i <= |urls| && |acc.servers| == i
    requires BuildServers(acc, urls, creds, i).error.None?
    ensures u in BuildServers(acc, urls, creds, i).registry.credentials
            <==> u in acc.credentials || CredentialedFrom(urls, creds, i, u)
    decreases |urls| - i
  {
    if i < |urls| {
      var raw := CredentialAt(creds, i);
      var url := urls[i];
      if raw != "" {
        var c := ParseCredentials(raw).value;
        var acc' := acc.(servers := acc.servers + [ServerConfig(url, c.user, c.password, url == acc.masterUrl)],
                         credentials := acc.credentials[url := c]);
        assert BuildServers(acc, urls, creds, i) == BuildServers(acc', urls, creds, i + 1);
        CredentialKeys(acc', urls, creds, i + 1, u);
      } else {
        var acc' := acc.(servers := acc.servers + [ServerConfig(url, "", "", url == acc.masterUrl)]);
        assert BuildServers(acc, urls, creds, i) == BuildServers(acc', urls, creds, i + 1);
        CredentialKeys(acc', urls, creds, i + 1, u);
      }
    }
  }

  /** An entry no later position writes survives the rest of the loop. */
  lemma {:induction false} CredentialUntouched(acc: Registry, urls: seq<string>, creds: seq<string>, i: nat, u: string)
    requires i <= |urls| && |acc.servers| == i
    requires BuildServers(acc, urls, creds, i).error.None?
    requires u in acc.credentials
    requires !CredentialedFrom(urls, creds, i, u)
    ensures u in BuildServers(acc, urls, creds, i).registry.credentials
    ensures BuildServers(acc, urls, creds, i).registry.credentials[u] == acc.credentials[u]
    decreases |urls| - i
  {
    if i < |urls| {
      var raw := CredentialAt(creds, i);
      var url := urls[i];
      if raw != "" {
        var c := ParseCredentials(raw).value;
        var acc' := acc.(servers := acc.servers + [ServerConfig(url, c.user, c.password, url == acc.masterUrl)],
                         credentials := acc.credentials[url := c]);
        assert BuildServers(acc, urls, creds, i) == BuildServers(acc', urls, creds, i + 1);
        CredentialUntouched(acc', urls, creds, i + 1, u);
      } else {
        var acc' := acc.(servers := acc.servers + [ServerConfig(url, "", "", url == acc.masterUrl)]);
        assert BuildServers(acc, urls, creds, i) == BuildServers(acc', urls, creds, i + 1);
        CredentialUntouched(acc', urls, creds, i + 1, u);
      }
    }
  }

  /** The entry for a URL holds the credential of its last position that has
      one. */
  lemma {:induction false} CredentialValue(acc: Registry, urls: seq<string>, creds: seq<string>, i: nat, k: nat)
    requires i <= k < |urls| && |acc.servers| == i
    requires BuildServers(acc, urls, creds, i).error.None?
    requires HasCredential(creds, k) && !Overridden(urls, creds, k)
    ensures ParseCredentials(CredentialAt(creds, k)).Success?
    ensures urls[k] in BuildServers(acc, urls, creds, i).registry.credentials
    ensures BuildServers(acc, urls, creds, i).registry.credentials[urls[k]]
            == ParseCredentials(CredentialAt(creds, k)).value
    decreases |urls| - i
  {
    var raw := CredentialAt(creds, i);
    var url := urls[i];
    if raw != "" {
      var c := ParseCredentials(raw).value;
      var acc' := acc.(servers := acc.servers + [ServerConfig(url, c.user, c.password, url == acc.masterUrl)],
                       credentials := acc.credentials[url := c]);
      assert BuildServers(acc, urls, creds, i) == BuildServers(acc', urls, creds, i + 1);
      if k == i {
        CredentialUntouched(acc', urls, creds, i + 1, url);
      } else {
        CredentialValue(acc', urls, creds, i + 1, k);
      }
    } else {
      var acc' := acc.(servers := acc.servers + [ServerConfig(url, "", "", url == acc.masterUrl)]);
      assert BuildServers(acc, urls, creds, i) == BuildServers(acc', urls, creds, i + 1);
      CredentialValue(acc', urls, creds, i + 1, k);
    }
  }

  /** A first `initialize` that passes the three checks is the loop over
      the parsed lists, started from an empty registry holding the master. */
  lemma InitializeRunsLoop(serversEnv: string, credentialsEnv: string, masterEnv: string)
    ensures var urls := ServerList(Split(serversEnv, ','));
      Initialize(Fresh(), serversEnv, credentialsEnv, masterEnv).error.None? ==>
      && |urls| > 0 && masterEnv != "" && masterEnv in urls
      && Initialize(Fresh(), serversEnv, credentialsEnv, masterEnv)
         == BuildServers(Registry([], map[], masterEnv, false), urls, CredentialList(Split(credentialsEnv, ',')), 0)
  {
  }

  /** After a successful first `initialize`, the registry lists the trimmed,
      non-empty server URLs in order, pairs each with the credential at its
      position (empty user and password when that credential is missing or
      blank) and marks exactly the master URL, which is one of them, as
      master. */
  lemma InitializeBuildsServers(serversEnv: string, credentialsEnv: string, masterEnv: string)
    ensures var r := Initialize(Fresh(), serversEnv, credentialsEnv, masterEnv);
      var reg := r.registry;
      var urls := ServerList(Split(serversEnv, ','));
      var creds := CredentialList(Split(credentialsEnv, ','));
      r.error.None? ==>
      && GetServerUrls(reg) == urls
      && GetMasterUrl(reg) == masterEnv
      && masterEnv in GetServerUrls(reg)
      && (forall k :: 0 <= k < |urls| ==> reg.servers[k] == ExpectedServer(urls, creds, masterEnv, k))
      && (forall k :: 0 <= k < |urls| ==> (reg.servers[k].isMaster <==> urls[k] == masterEnv))
  {
    InitializeRunsLoop(serversEnv, credentialsEnv, masterEnv);
    if Initialize(Fresh(), serversEnv, credentialsEnv, masterEnv).error.None? {
      LoopBuildsServers(ServerList(Split(serversEnv, ',')), CredentialList(Split(credentialsEnv, ',')), masterEnv);
    }
  }

  /** A loop started from an empty registry that completes lists every URL
      in order, each with its expected entry. */
  lemma LoopBuildsServers(urls: seq<string>, creds: seq<string>, master: string)
    requires BuildServers(Registry([], map[], master, false), urls, creds, 0).error.None?
    ensures var reg := BuildServers(Registry([], map[], master, false), urls, creds, 0).registry;
      && GetServerUrls(reg) == urls
      && GetMasterUrl(reg) == master
      && (forall k :: 0 <= k < |urls| ==> reg.servers[k] == ExpectedServer(urls, creds, master, k))
      && (forall k :: 0 <= k < |urls| ==> (reg.servers[k].isMaster <==> urls[k] == master))
  {
    var reg := BuildServers(Registry([], map[], master, false), urls, creds, 0).registry;
    assert |reg.servers| == |urls|;
    forall k | 0 <= k < |urls| ensures reg.servers[k].url == urls[k] && (reg.servers[k].isMaster <==> urls[k] == master) {
      assert reg.servers[k] == ExpectedServer(urls, creds, master, k);
    }
    assert GetServerUrls(reg) == urls;
  }

  /** A loop started from an empty map that completes holds a credential
      entry exactly for the URLs with a non-blank credential, taken from the
      last such position. */
  lemma LoopBuildsCredentials(urls: seq<string>, creds: seq<string>, master: string)
    requires BuildServers(Registry([], map[], master, false), urls, creds, 0).error.None?
    ensures var reg := BuildServers(Registry([], map[], master, false), urls, creds, 0).registry;
      && (forall u :: u in reg.credentials <==> exists k :: 0 <= k < |urls| && urls[k] == u && HasCredential(creds, k))
      && (forall k :: 0 <= k < |urls| && HasCredential(creds, k) && !Overridden(urls, creds, k) ==>
            && ParseCredentials(CredentialAt(creds, k)).Success?
            && urls[k] in reg.credentials
            && reg.credentials[urls[k]] == ParseCredentials(CredentialAt(creds, k)).value)
  {
    var acc := Registry([], map[], master, false);
    var reg := BuildServers(acc, urls, creds, 0).registry;
    forall u ensures u in reg.credentials <==> exists k :: 0 <= k < |urls| && urls[k] == u && HasCredential(creds, k) {
      CredentialKeys(acc, urls, creds, 0, u);
      CredentialedFromExists(urls, creds, 0, u);
    }
    forall k | 0 <= k < |urls| && HasCredential(creds, k) && !Overridden(urls, creds, k)
      ensures ParseCredentials(CredentialAt(creds, k)).Success?
      ensures urls[k] in reg.credentials
      ensures reg.credentials[urls[k]] == ParseCredentials(CredentialAt(creds, k)).value
    {
      CredentialValue(acc, urls, creds, 0, k);
    }
  }

  /** After a successful first `initialize`, the registry holds a credential
      entry exactly for the URLs with a non-blank credential, taken from the
      last such position. */
  lemma InitializeBuildsCredentials(serversEnv: string, credentialsEnv: string, masterEnv: string)
    ensures var r := Initialize(Fresh(), serversEnv, credentialsEnv, masterEnv);
      var reg := r.registry;
      var urls := ServerList(Split(serversEnv, ','));
      var creds := CredentialList(Split(credentialsEnv, ','));
      r.error.None? ==>
      && (forall u :: u in reg.credentials <==> exists k :: 0 <= k < |urls| && urls[k] == u && HasCredential(creds, k))
      && (forall k :: 0 <= k < |urls| && HasCredential(creds, k) && !Overridden(urls, creds, k) ==>
            && ParseCredentials(CredentialAt(creds, k)).Success?
            && urls[k] in reg.credentials
            && reg.credentials[urls[k]] == ParseCredentials(CredentialAt(creds, k)).value)
  {
    InitializeRunsLoop(serversEnv, credentialsEnv, masterEnv);
    if Initialize(Fresh(), serversEnv, credentialsEnv, masterEnv).error.None? {
      LoopBuildsCredentials(ServerList(Split(serversEnv, ',')), CredentialList(Split(credentialsEnv, ',')), masterEnv);
    }
  }

  /** The three configuration checks fail before any field is written. */
  lemma ValidationFailsWithoutWrites(reg: Registry, serversEnv: string, credentialsEnv: string, masterEnv: string)
    requires !reg.initialized
    requires var urls := ServerList(Split(serversEnv, ','));
      |urls| == 0 || masterEnv == "" || masterEnv !in urls
    ensures Initialize(reg, serversEnv, credentialsEnv, masterEnv).registry == reg
    ensures Initialize(reg, serversEnv, credentialsEnv, masterEnv).error.Some?
  {
  }

  /** A malformed credential stops the loop with `initialized` still false,
      and the master URL is already recorded. */
  lemma MalformedCredentialLeavesUninitialised(reg: Registry, serversEnv: string, credentialsEnv: string, masterEnv: string)
    requires !reg.initialized
    ensures var r := Initialize(reg, serversEnv, credentialsEnv, masterEnv);
      r.error == Some(Fail(BadCredentialMessage)) ==> !r.registry.initialized && r.registry.masterUrl == masterEnv
  {
    var urls := ServerList(Split(serversEnv, ','));
    if Initialize(reg, serversEnv, credentialsEnv, masterEnv).error == Some(Fail(BadCredentialMessage)) {
      assert |urls| > 0 && masterEnv != "" && masterEnv in urls;
    }
  }
}
