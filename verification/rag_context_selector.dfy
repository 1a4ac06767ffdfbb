/** The RAG context selector of the web client
    (`components/rag-context-selector.tsx`): the capabilities grouped by
    language for the picker, the value emitted when a domain is chosen, and
    the label shown on the trigger button. */
module RagContextSelector {
  import opened Common
  import RagDiscovery

  type RagCapability = RagDiscovery.Capability

  /** A domain entry of the picker. */
  datatype DomainOption = DomainOption(id: string, labelText: string, code: string)

  /** The domains offered under one lowercased language, in insertion
      order (one entry of `byLanguage`). */
  datatype Group = Group(key: string, domains: seq<DomainOption>)

  datatype LanguageOption = LanguageOption(id: string, labelText: string)

  datatype Normalized = Normalized(byLanguage: seq<Group>, languages: seq<LanguageOption>, totalDomains: nat)

  datatype SelectorMode = Auto | Manual

  /** `RagContextValue`; `None` is an absent field. */
  datatype ContextValue = ContextValue(mode: SelectorMode, language: Option<string>, domain: Option<string>)

  // ---------------------------------------------------------------------------
  // normalizeCapabilities

  /** A capability takes part only if it has both a language and a domain. */
  predicate Included(c: RagCapability) {
    Given(c.language) && Given(c.domain)
  }

  predicate HasKey(groups: seq<Group>, key: string) {
    exists i :: 0 <= i < |groups| && groups[i].key == key
  }

  /** The position of the group for `key`. */
  function FindGroup(groups: seq<Group>, key: string): (r: Option<nat>)
    ensures r.Some? ==> r.value < |groups| && groups[r.value].key == key
    ensures r.None? ==> !HasKey(groups, key)
  {
    if groups == [] then None
    else if groups[0].key == key then Some(0)
    else
      match FindGroup(groups[1..], key)
      case None => None
      case Some(i) => Some(i + 1)
  }

  /** Some entry's code lowercases to `domainKey` (the `find` of line 63). */
  predicate HasDomain(domains: seq<DomainOption>, domainKey: string) {
    exists k :: 0 <= k < |domains| && Lower(domains[k].code) == domainKey
  }

  /** One iteration of the loop over the capabilities. */
  function Insert(groups: seq<Group>, c: RagCapability): seq<Group>
    requires Included(c)
  {
    var langKey := Lower(c.language.value);
    var domainKey := Lower(c.domain.value);
    var option := DomainOption(langKey + "-" + domainKey, c.domain.value, c.domain.value);
    match FindGroup(groups, langKey)
    case None => groups + [Group(langKey, [option])]
    case Some(i) =>
      if HasDomain(groups[i].domains, domainKey) then groups
      else groups[i := Group(langKey, groups[i].domains + [option])]
  }

  /** `byLanguage` after the loop has seen `caps`. */
  function Groups(caps: seq<RagCapability>): seq<Group> {
    if caps == [] then []
    else
      var before := Groups(AllButLast(caps));
      if Included(Last(caps)) then Insert(before, Last(caps)) else before
  }

  /** `domainSet` after the loop has seen `caps`. */
  function DomainKeys(caps: seq<RagCapability>): set<string> {
    if caps == [] then {}
    else DomainKeys(AllButLast(caps)) + (if Included(Last(caps)) then {Lower(Last(caps).domain.value)} else {})
  }

  /** `capabilities.find(c => c.language?.toLowerCase() === key)?.language`:
      the original spelling of the first capability, with or without a
      domain, whose language lowercases to `key`. */
  function FirstSpelling(caps: seq<RagCapability>, key: string): (r: Option<string>)
    ensures r.Some? ==> Lower(r.value) == key
    ensures r.None? <==> forall k :: 0 <= k < |caps| ==> !SpelledAs(caps[k], key)
    ensures r.Some? ==> exists k :: 0 <= k < |caps| && caps[k].language == r && SpelledAs(caps[k], key)
                                    && forall j :: 0 <= j < k ==> !SpelledAs(caps[j], key)
  {
    if caps == [] then None
    else if SpelledAs(caps[0], key) then caps[0].language
    else
      var r := FirstSpelling(caps[1..], key);
      assert forall k :: 1 <= k < |caps| ==> caps[k] == caps[1..][k - 1];
      if r.Some? then
        var k :| 0 <= k < |caps[1..]| && caps[1..][k].language == r && SpelledAs(caps[1..][k], key)
                 && forall j :: 0 <= j < k ==> !SpelledAs(caps[1..][j], key);
        assert caps[k + 1] == caps[1..][k];
        r
      else r
  }

  /** The capability names a language that lowercases to `key`. */
  predicate SpelledAs(c: RagCapability, key: string) {
    c.language.Some? && Lower(c.language.value) == key
  }

  function LanguagesOf(groups: seq<Group>, caps: seq<RagCapability>): (r: seq<LanguageOption>)
    ensures |r| == |groups|
    ensures forall i :: 0 <= i < |r| ==> r[i].id == groups[i].key
  {
    seq(|groups|, i requires 0 <= i < |groups| => LanguageOption(groups[i].key, FirstSpelling(caps, groups[i].key).GetOr(groups[i].key)))
  }

  function Normalize(caps: seq<RagCapability>): Normalized {
    var groups := Groups(caps);
    Normalized(groups, LanguagesOf(groups, caps), |DomainKeys(caps)|)
  }

  // ---------------------------------------------------------------------------
  // What the grouping keeps

  /** Group keys are distinct; each entry's id is `lang-domain` in lower
      case and its label is its original code; no two entries of a group
      agree up to case. */
  predicate WellFormed(groups: seq<Group>) {
    && (forall i, j :: 0 <= i < j < |groups| ==> groups[i].key != groups[j].key)
    && (forall i, k :: 0 <= i < |groups| && 0 <= k < |groups[i].domains| ==>
          && groups[i].domains[k].id == groups[i].key + "-" + Lower(groups[i].domains[k].code)
          && groups[i].domains[k].labelText == groups[i].domains[k].code)
    && (forall i, k, l :: 0 <= i < |groups| && 0 <= k < l < |groups[i].domains| ==>
          Lower(groups[i].domains[k].code) != Lower(groups[i].domains[l].code))
  }

  /** An included capability at a position below `n`, with this language
      key. */
  predicate LanguageSeen(caps: seq<RagCapability>, key: string) {
    exists i :: 0 <= i < |caps| && Included(caps[i]) && Lower(caps[i].language.value) == key
  }

  predicate PairSeen(caps: seq<RagCapability>, key: string, domainKey: string) {
    exists i :: 0 <= i < |caps| && Included(caps[i])
                && Lower(caps[i].language.value) == key && Lower(caps[i].domain.value) == domainKey
  }

  /** What `Insert` guarantees: the groups stay well formed, the
      capability's pair is added, and nothing else changes except by
      appending (existing groups keep their place and entries). */
  ghost predicate InsertPost(groups: seq<Group>, c: RagCapability, r: seq<Group>)
    requires Included(c)
  {
    var langKey := Lower(c.language.value);
    && WellFormed(r)
    && |groups| <= |r|
    && (forall i :: 0 <= i < |groups| ==> r[i].key == groups[i].key && groups[i].domains <= r[i].domains)
    && (forall key :: HasKey(r, key) <==> HasKey(groups, key) || key == langKey)
    && (forall i :: 0 <= i < |r| ==> forall dk ::
          HasDomain(r[i].domains, dk) <==>
            (i < |groups| && HasDomain(groups[i].domains, dk))
            || (r[i].key == langKey && dk == Lower(c.domain.value)))
  }

  lemma InsertFacts(groups: seq<Group>, c: RagCapability)
    requires Included(c)
    requires WellFormed(groups)
    ensures InsertPost(groups, c, Insert(groups, c))
  {
    match FindGroup(groups, Lower(c.language.value))
    case None => InsertNewGroup(groups, c);
    case Some(g) =>
      if HasDomain(groups[g].domains, Lower(c.domain.value)) {
        InsertKnownDomain(groups, c, g);
      } else {
        InsertNewDomain(groups, c, g);
      }
  }

  lemma InsertNewGroup(groups: seq<Group>, c: RagCapability)
    requires Included(c)
    requires WellFormed(groups)
    requires FindGroup(groups, Lower(c.language.value)).None?
    ensures InsertPost(groups, c, Insert(groups, c))
  {
    var langKey := Lower(c.language.value);
    var domainKey := Lower(c.domain.value);
    var option := DomainOption(langKey + "-" + domainKey, c.domain.value, c.domain.value);
    var r := Insert(groups, c);
    assert r == groups + [Group(langKey, [option])];
    forall key | HasKey(r, key) ensures HasKey(groups, key) || key == langKey {
      var i :| 0 <= i < |r| && r[i].key == key;
      if i < |groups| {
        assert groups[i].key == key;
      }
    }
    forall key | HasKey(groups, key) ensures HasKey(r, key) {
      var i :| 0 <= i < |groups| && groups[i].key == key;
      assert r[i].key == key;
    }
    assert r[|groups|].key == langKey;
    forall i | 0 <= i < |r| ensures forall dk ::
        HasDomain(r[i].domains, dk) <==>
          (i < |groups| && HasDomain(groups[i].domains, dk))
          || (r[i].key == langKey && dk == domainKey) {
      if i < |groups| {
        assert r[i] == groups[i];
        assert groups[i].key != langKey;
      } else {
        assert r[i].domains == [option];
        forall dk ensures HasDomain(r[i].domains, dk) <==> dk == domainKey {
          if dk == domainKey {
            assert Lower(r[i].domains[0].code) == dk;
          }
        }
      }
    }
  }

  lemma InsertKnownDomain(groups: seq<Group>, c: RagCapability, g: nat)
    requires Included(c)
    requires WellFormed(groups)
    requires FindGroup(groups, Lower(c.language.value)) == Some(g)
    requires HasDomain(groups[g].domains, Lower(c.domain.value))
    ensures InsertPost(groups, c, Insert(groups, c))
  {
    assert Insert(groups, c) == groups;
  }

  lemma InsertNewDomain(groups: seq<Group>, c: RagCapability, g: nat)
    requires Included(c)
    requires WellFormed(groups)
    requires FindGroup(groups, Lower(c.language.value)) == Some(g)
    requires !HasDomain(groups[g].domains, Lower(c.domain.value))
    ensures InsertPost(groups, c, Insert(groups, c))
  {
    var langKey := Lower(c.language.value);
    var domainKey := Lower(c.domain.value);
    var option := DomainOption(langKey + "-" + domainKey, c.domain.value, c.domain.value);
    var ds := groups[g].domains + [option];
    var r := Insert(groups, c);
    assert r == groups[g := Group(langKey, ds)];
    DomainsAppend(groups[g].domains, option);
    UpdateKeepsKeys(groups, g, Group(langKey, ds));
    UpdateWellFormed(groups, g, option);
  }

  /** Appending an entry adds exactly its lowercased code. */
  lemma DomainsAppend(ds: seq<DomainOption>, option: DomainOption)
    ensures forall dk :: HasDomain(ds + [option], dk) <==> HasDomain(ds, dk) || dk == Lower(option.code)
  {
    var all := ds + [option];
    forall dk ensures HasDomain(all, dk) <==> HasDomain(ds, dk) || dk == Lower(option.code) {
      if HasDomain(all, dk) {
        var k :| 0 <= k < |all| && Lower(all[k].code) == dk;
        if k < |ds| {
          assert all[k] == ds[k];
        }
      }
      if HasDomain(ds, dk) {
        var k :| 0 <= k < |ds| && Lower(ds[k].code) == dk;
        assert all[k] == ds[k];
      }
      assert all[|all| - 1] == option;
    }
  }

  /** Replacing a group by one with the same key keeps the set of keys. */
  lemma UpdateKeepsKeys(groups: seq<Group>, g: nat, grp: Group)
    requires g < |groups| && grp.key == groups[g].key
    ensures forall key :: HasKey(groups[g := grp], key) <==> HasKey(groups, key)
  {
    var r := groups[g := grp];
    forall key | HasKey(r, key) ensures HasKey(groups, key) {
      var i :| 0 <= i < |r| && r[i].key == key;
      assert groups[i].key == key;
    }
    forall key | HasKey(groups, key) ensures HasKey(r, key) {
      var i :| 0 <= i < |groups| && groups[i].key == key;
      assert r[i].key == key;
    }
  }

  /** A well-formed entry whose code is new to its group keeps the groups
      well formed. */
  lemma UpdateWellFormed(groups: seq<Group>, g: nat, option: DomainOption)
    requires WellFormed(groups)
    requires g < |groups|
    requires option.id == groups[g].key + "-" + Lower(option.code) && option.labelText == option.code
    requires !HasDomain(groups[g].domains, Lower(option.code))
    ensures WellFormed(groups[g := Group(groups[g].key, groups[g].domains + [option])])
  {
    var ds := groups[g].domains + [option];
    var r := groups[g := Group(groups[g].key, ds)];
    assert forall i :: 0 <= i < |r| ==> r[i].key == groups[i].key;
    forall k, l | 0 <= k < l < |ds| ensures Lower(ds[k].code) != Lower(ds[l].code) {
      assert ds[k] == groups[g].domains[k];
      if l < |ds| - 1 {
        assert ds[l] == groups[g].domains[l];
      }
    }
    forall k | 0 <= k < |ds| ensures ds[k].id == groups[g].key + "-" + Lower(ds[k].code) && ds[k].labelText == ds[k].code {
      if k < |ds| - 1 {
        assert ds[k] == groups[g].domains[k];
      }
    }
  }

  /** After any prefix, the groups are well formed, there is a group for
      exactly the languages seen, and a group's entries are exactly the
      domains seen with its language, up to case. */
  lemma {:induction false} GroupsInvariant(caps: seq<RagCapability>)
    ensures var r := Groups(caps);
      && WellFormed(r)
      && (forall key :: HasKey(r, key) <==> LanguageSeen(caps, key))
      && (forall i :: 0 <= i < |r| ==> forall dk :: HasDomain(r[i].domains, dk) <==> PairSeen(caps, r[i].key, dk))
    decreases |caps|
  {
    if caps != [] {
      var pre := AllButLast(caps);
      var c := Last(caps);
      GroupsInvariant(pre);
      var g := Groups(pre);
      SeenStep(caps);
      if Included(c) {
        InsertFacts(g, c);
        var r := Insert(g, c);
        forall i | 0 <= i < |r| ensures forall dk :: HasDomain(r[i].domains, dk) <==> PairSeen(caps, r[i].key, dk) {
          if i >= |g| {
            forall j | 0 <= j < |g| ensures g[j].key != r[i].key {
              assert r[j].key == g[j].key;
            }
            assert !HasKey(g, r[i].key);
            assert !LanguageSeen(pre, r[i].key);
            forall dk ensures !PairSeen(pre, r[i].key, dk) {
            }
          }
        }
      }
    }
  }

  /** What one more capability adds to the languages and pairs seen. */
  lemma SeenStep(caps: seq<RagCapability>)
    requires caps != []
    ensures var pre, c := AllButLast(caps), Last(caps);
      forall key :: LanguageSeen(caps, key) <==> LanguageSeen(pre, key) || (Included(c) && key == Lower(c.language.value))
    ensures var pre, c := AllButLast(caps), Last(caps);
      forall key, dk :: PairSeen(caps, key, dk) <==>
        PairSeen(pre, key, dk) || (Included(c) && key == Lower(c.language.value) && dk == Lower(c.domain.value))
  {
    var pre, c := AllButLast(caps), Last(caps);
    assert forall i :: 0 <= i < |pre| ==> pre[i] == caps[i];
    forall key | LanguageSeen(caps, key)
      ensures LanguageSeen(pre, key) || (Included(c) && key == Lower(c.language.value)) {
      var i :| 0 <= i < |caps| && Included(caps[i]) && Lower(caps[i].language.value) == key;
      if i < |pre| {
        assert pre[i] == caps[i];
      }
    }
    forall key, dk | PairSeen(caps, key, dk)
      ensures PairSeen(pre, key, dk) || (Included(c) && key == Lower(c.language.value) && dk == Lower(c.domain.value)) {
      var i :| 0 <= i < |caps| && Included(caps[i])
               && Lower(caps[i].language.value) == key && Lower(caps[i].domain.value) == dk;
      if i < |pre| {
        assert pre[i] == caps[i];
      }
    }
  }

  /** The number of distinct domains, up to case, among the included
      capabilities, whatever their language. */
  lemma {:induction false} DomainKeysCount(caps: seq<RagCapability>)
    ensures DomainKeys(caps) == set i | 0 <= i < |caps| && Included(caps[i]) :: Lower(caps[i].domain.value)
    decreases |caps|
  {
    if caps != [] {
      var pre := AllButLast(caps);
      DomainKeysCount(pre);
      assert forall i :: 0 <= i < |pre| ==> pre[i] == caps[i];
      assert caps[|caps| - 1] == Last(caps);
    }
  }

  /** Capabilities lacking a language or a domain change neither the groups
      nor the domain count. */
  lemma IgnoredCapability(caps: seq<RagCapability>, c: RagCapability)
    requires !Included(c)
    ensures Groups(caps + [c]) == Groups(caps)
    ensures DomainKeys(caps + [c]) == DomainKeys(caps)
  {
    assert AllButLast(caps + [c]) == caps;
  }

  /** The first capability with a given language and domain, up to case,
      fixes the entry's spelling: later spellings are not added. */
  lemma {:induction false} FirstSpellingKept(caps: seq<RagCapability>, j: nat)
    requires j < |caps| && Included(caps[j])
    requires !PairSeen(caps[..j], Lower(caps[j].language.value), Lower(caps[j].domain.value))
    ensures var r := Groups(caps);
      var key := Lower(caps[j].language.value);
      var dk := Lower(caps[j].domain.value);
      exists i, k :: 0 <= i < |r| && 0 <= k < |r[i].domains| && r[i].key == key
                     && r[i].domains[k] == DomainOption(key + "-" + dk, caps[j].domain.value, caps[j].domain.value)
    decreases |caps|
  {
    var key := Lower(caps[j].language.value);
    var dk := Lower(caps[j].domain.value);
    var option := DomainOption(key + "-" + dk, caps[j].domain.value, caps[j].domain.value);
    var pre := AllButLast(caps);
    var c := Last(caps);
    GroupsInvariant(pre);
    var g := Groups(pre);
    if j == |caps| - 1 {
      assert pre == caps[..j];
      assert c == caps[j];
      var r := Insert(g, c);
      match FindGroup(g, key)
      case None =>
        assert r[|g|].domains[0] == option;
      case Some(i) =>
        assert !HasDomain(g[i].domains, dk);
        assert r[i].domains[|g[i].domains|] == option;
    } else {
      assert caps[..j] == pre[..j];
      assert pre[j] == caps[j];
      FirstSpellingKept(pre, j);
      var i, k :| 0 <= i < |g| && 0 <= k < |g[i].domains| && g[i].key == key && g[i].domains[k] == option;
      if Included(c) {
        InsertFacts(g, c);
        var r := Insert(g, c);
        assert Groups(caps) == r;
        assert g[i].domains <= r[i].domains;
        assert r[i].key == key && k < |r[i].domains| && r[i].domains[k] == option;
      } else {
        assert Groups(caps) == g;
      }
    }
  }

  /** Each language entry is labelled with the spelling of the first
      capability whose language lowercases to its id. */
  lemma LanguageLabels(caps: seq<RagCapability>)
    ensures var n := Normalize(caps);
      && |n.languages| == |n.byLanguage|
      && forall i :: 0 <= i < |n.languages| ==>
           && n.languages[i].id == n.byLanguage[i].key
           && FirstSpelling(caps, n.languages[i].id).Some?
           && n.languages[i].labelText == FirstSpelling(caps, n.languages[i].id).value
           && Lower(n.languages[i].labelText) == n.languages[i].id
  {
    var groups := Groups(caps);
    GroupsInvariant(caps);
    forall i | 0 <= i < |groups| ensures FirstSpelling(caps, groups[i].key).Some? {
      assert HasKey(groups, groups[i].key);
      var j :| 0 <= j < |caps| && Included(caps[j]) && Lower(caps[j].language.value) == groups[i].key;
      assert SpelledAs(caps[j], groups[i].key);
    }
  }

  // ---------------------------------------------------------------------------
  // handleDomainSelect, the reopened picker and displayLabel

  /** Choosing `domain` under the language id `language`: manual mode, with
      the original spelling of the first capability of that language, or the
      id itself if none has it. */
  function DomainSelect(caps: seq<RagCapability>, domain: string, language: string): (v: ContextValue)
    ensures v.mode.Manual? && v.domain == Some(domain) && v.language.Some?
  {
    ContextValue(Manual, Some(FirstSpelling(caps, language).GetOr(language)), Some(domain))
  }

  /** The language group the picker opens on for a value. */
  function OpenedLanguage(v: ContextValue): Option<string> {
    if v.mode.Manual? && Given(v.language) then Some(Lower(v.language.value)) else None
  }

  /** The trigger label: "domain · language" for a manual value with both
      fields, the translated "auto" text otherwise. */
  function DisplayLabel(v: ContextValue, autoText: string): (r: string)
    ensures v.mode.Manual? && Given(v.domain) && Given(v.language) ==>
              r == v.domain.value + RagDiscovery.LabelSeparator + v.language.value
    ensures !(v.mode.Manual? && Given(v.domain) && Given(v.language)) ==> r == autoText
  {
    if v.mode.Auto? then autoText
    else if Given(v.domain) && Given(v.language) then v.domain.value + RagDiscovery.LabelSeparator + v.language.value
    else autoText
  }

  /** Reopening the picker after choosing a domain shows the language it was
      chosen under, and the trigger names the domain and that language's
      original spelling. */
  lemma SelectThenReopen(caps: seq<RagCapability>, domain: string, language: string)
    requires Lower(language) == language && Truthy(language) && Truthy(domain)
    ensures var v := DomainSelect(caps, domain, language);
      && OpenedLanguage(v) == Some(language)
      && Lower(v.language.value) == language
      && DisplayLabel(v, "") == domain + RagDiscovery.LabelSeparator + v.language.value
  {
    var v := DomainSelect(caps, domain, language);
    assert Lower(v.language.value) == language;
    assert |Lower(v.language.value)| == |v.language.value|;
  }
}
