/** The pure decisions of src/utils/config.ts: the shape check of a stored configuration, the
    domain checks on the active tab's URL, and the choice of the tab the popup opens on.

    Reading storage and querying the browser for the active tab are left to the caller, which
    passes in what they returned. */
module Config {
  import opened Wrappers
  import opened Strings
  import opened Json

  const GoldenCallDomains: seq<string> := ["github.com"]
  const SearchDomains: seq<string> := [".emol.com"]

  /** The popup's tabs: 'goldencall', 'search' and 'configuration'. */
  datatype Tab = GoldenCall | SearchTab | ConfigurationTab

  datatype TabConfig = TabConfig(defaultTab: Tab, autoSwitchTabs: bool)

  /** `DEFAULT_TAB_CONFIG`: open on the Golden Call tab and switch tabs by domain. */
  const DefaultTabConfig: TabConfig := TabConfig(GoldenCall, true)

  // ---------------------------------------------------------------------------------------
  // validateConfig
  // ---------------------------------------------------------------------------------------

  /** An entry whose `label` and `searchValue` are both strings. */
  predicate GoodOption(o: Json) {
    IsStr(Get(o, "label")) && IsStr(Get(o, "searchValue"))
  }

  /** `options.every(option => typeof option.label === 'string' && ...)`. `every` stops at
      the first entry that fails; reading `label` of a `null` entry throws. */
  function EveryOption(items: seq<Json>): (r: Result<bool>)
    ensures r.Failure? ==> r.error == NullProperty
    decreases |items|
  {
    if items == [] then Success(true)
    else if items[0] == JNull then Failure(NullProperty)
    else if !GoodOption(items[0]) then Success(false)
    else EveryOption(items[1..])
  }

  /** The entries are accepted exactly when every one is good. */
  lemma {:induction false} EveryOptionTrue(items: seq<Json>)
    ensures EveryOption(items) == Success(true) <==> forall k :: 0 <= k < |items| ==> GoodOption(items[k])
    decreases |items|
  {
    if items != [] {
      EveryOptionTrue(items[1..]);
      if items[0] != JNull && GoodOption(items[0]) {
        assert forall k :: 1 <= k < |items| ==> items[k] == items[1..][k - 1];
      }
    }
  }

  /** The check throws exactly when a `null` entry comes before any bad one. */
  lemma {:induction false} EveryOptionThrows(items: seq<Json>)
    ensures EveryOption(items).Failure? <==>
              exists k :: 0 <= k < |items| && items[k] == JNull && forall i :: 0 <= i < k ==> GoodOption(items[i])
    decreases |items|
  {
    if items != [] {
      EveryOptionThrows(items[1..]);
      if items[0] == JNull {
      } else if !GoodOption(items[0]) {
        forall k | 0 <= k < |items| && items[k] == JNull ensures !(forall i :: 0 <= i < k ==> GoodOption(items[i])) {
          assert k > 0;
        }
      } else {
        var tail := items[1..];
        if EveryOption(tail).Failure? {
          var k :| 0 <= k < |tail| && tail[k] == JNull && forall i :: 0 <= i < k ==> GoodOption(tail[i]);
          assert items[k + 1] == JNull;
          forall i | 0 <= i < k + 1 ensures GoodOption(items[i]) {
            if i > 0 { assert items[i] == tail[i - 1]; }
          }
        } else {
          forall k | 0 <= k < |items| && items[k] == JNull ensures !(forall i :: 0 <= i < k ==> GoodOption(items[i])) {
            assert k > 0 && tail[k - 1] == JNull;
            assert forall i :: 0 <= i < k - 1 ==> tail[i] == items[i + 1];
          }
        }
      }
    }
  }

  /** `ConfigManager.validateConfig(config)`: a truthy value whose `options` is an array of good
      entries. A falsy configuration is returned as it is, which reads as false. */
  function ValidateConfig(c: Json): (r: Result<bool>)
    ensures r.Failure? ==> r.error == NullProperty
  {
    if Falsy(c) then Success(false)
    else
      match Get(c, "options")
      case Some(JArr(items)) => EveryOption(items)
      case _ => Success(false)
  }

  /** A configuration is accepted exactly when it is an object whose `options` field is an
      array of entries with string `label` and `searchValue`. */
  lemma ValidateConfigMeaning(c: Json)
    ensures ValidateConfig(c) == Success(true) <==>
              && c.JObj? && "options" in c.fields && c.fields["options"].JArr?
              && forall k :: 0 <= k < |c.fields["options"].items| ==> GoodOption(c.fields["options"].items[k])
  {
    if c.JObj? && "options" in c.fields && c.fields["options"].JArr? {
      EveryOptionTrue(c.fields["options"].items);
    }
  }

  // ---------------------------------------------------------------------------------------
  // Domains
  // ---------------------------------------------------------------------------------------

  /** `domains.some(domain => s.includes(domain))`. */
  function AnyIncludes(s: string, domains: seq<string>): (r: bool)
    ensures r <==> exists k :: 0 <= k < |domains| && Contains(s, domains[k])
    decreases |domains|
  {
    if domains == [] then false
    else if Contains(s, domains[0]) then true
    else
      var r := AnyIncludes(s, domains[1..]);
      assert forall k :: 1 <= k < |domains| ==> domains[k] == domains[1..][k - 1];
      r
  }

  /** A URL as the checks see it: the string, and the hostname `new URL(href)` gives, None
      when the constructor throws. */
  datatype Url = Url(href: string, host: Option<string>)

  /** The hostname includes one of `domains`; when the URL does not parse, the whole string
      is searched instead. */
  function DomainMatches(u: Url, domains: seq<string>): bool {
    match u.host
    case Some(h) => AnyIncludes(h, domains)
    case None => AnyIncludes(u.href, domains)
  }

  /** `isValidDomainForGolden(url)`: the hostname includes "github.com". */
  function IsValidDomainForGolden(u: Url): (r: bool)
    ensures u.host.Some? ==> (r <==> Contains(u.host.value, "github.com"))
    ensures u.host.None? ==> (r <==> Contains(u.href, "github.com"))
  {
    DomainMatches(u, GoldenCallDomains)
  }

  /** `isValidDomainForSearch(url)`: the hostname includes ".emol.com". */
  function IsValidDomainForSearch(u: Url): (r: bool)
    ensures u.host.Some? ==> (r <==> Contains(u.host.value, ".emol.com"))
    ensures u.host.None? ==> (r <==> Contains(u.href, ".emol.com"))
  {
    DomainMatches(u, SearchDomains)
  }

  /** For a URL that parses only the hostname counts: no path or query makes a page count as
      a GitHub or an emol page. */
  lemma HostDecides(u: Url, v: Url)
    requires u.host.Some? && u.host == v.host
    ensures IsValidDomainForGolden(u) == IsValidDomainForGolden(v)
    ensures IsValidDomainForSearch(u) == IsValidDomainForSearch(v)
  {
  }

  /** `determineTabBasedOnDomain(url, tabConfig)`. */
  function DetermineTabBasedOnDomain(u: Url, cfg: TabConfig): (r: Tab)
    ensures r == GoldenCall || r == SearchTab || r == cfg.defaultTab
    ensures r == SearchTab && cfg.defaultTab != SearchTab ==> IsValidDomainForSearch(u) && !IsValidDomainForGolden(u)
    ensures cfg.autoSwitchTabs && !IsValidDomainForGolden(u) && IsValidDomainForSearch(u) ==> r == SearchTab
    ensures cfg.autoSwitchTabs && !IsValidDomainForGolden(u) && !IsValidDomainForSearch(u) ==> r == cfg.defaultTab
  {
    if !cfg.autoSwitchTabs then cfg.defaultTab
    else if IsValidDomainForGolden(u) then GoldenCall
    else if IsValidDomainForSearch(u) then SearchTab
    else cfg.defaultTab
  }

  /** With switching on, a GitHub page opens the Golden Call tab even when it also matches
      the search domain; with switching off the URL is never looked at. */
  lemma GoldenFirst(u: Url, cfg: TabConfig)
    ensures cfg.autoSwitchTabs && IsValidDomainForGolden(u) ==> DetermineTabBasedOnDomain(u, cfg) == GoldenCall
    ensures !cfg.autoSwitchTabs ==> forall v: Url :: DetermineTabBasedOnDomain(v, cfg) == cfg.defaultTab
  {
  }

  /** `getTabConfiguration()`: the stored configuration's `tabConfig`, or the default when
      there is none or loading failed (`stored` is None). */
  function GetTabConfiguration(stored: Option<TabConfig>): (r: TabConfig)
    ensures stored.None? ==> r == DefaultTabConfig
    ensures stored.Some? ==> r == stored.value
  {
    stored.GetOr(DefaultTabConfig)
  }

  /** `determineActiveTab()`: the default tab when there is no active-tab URL (None, or the
      empty string, which is falsy), and otherwise the domain's tab. */
  function DetermineActiveTab(stored: Option<TabConfig>, current: Option<Url>): (r: Tab)
    ensures r == GetTabConfiguration(stored).defaultTab || r == GoldenCall || r == SearchTab
    ensures current.None? || current.value.href == [] ==> r == GetTabConfiguration(stored).defaultTab
    ensures r == SearchTab && GetTabConfiguration(stored).defaultTab != SearchTab ==>
              && current.Some? && GetTabConfiguration(stored).autoSwitchTabs
              && IsValidDomainForSearch(current.value) && !IsValidDomainForGolden(current.value)
    ensures current.Some? && current.value.href != [] ==>
              r == DetermineTabBasedOnDomain(current.value, GetTabConfiguration(stored))
  {
    var cfg := GetTabConfiguration(stored);
    if current.None? || current.value.href == [] then cfg.defaultTab
    else DetermineTabBasedOnDomain(current.value, cfg)
  }

  /** A stored tab configuration is obeyed: with switching off the popup always opens on its
      default tab, and with switching on a GitHub page opens the Golden Call tab. */
  lemma StoredTabConfigDecides(cfg: TabConfig, current: Option<Url>)
    ensures !cfg.autoSwitchTabs ==> DetermineActiveTab(Some(cfg), current) == cfg.defaultTab
    ensures cfg.autoSwitchTabs && current.Some? && current.value.href != [] && IsValidDomainForGolden(current.value)
            ==> DetermineActiveTab(Some(cfg), current) == GoldenCall
  {
    GoldenFirst(current.GetOr(Url([], None)), cfg);
  }

  /** Without a stored tab configuration the popup never opens on the configuration tab, and
      it opens on the search tab only for a URL on the search domain that is not a GitHub
      URL. */
  lemma FreshInstallTabs(current: Option<Url>)
    ensures DetermineActiveTab(None, current) != ConfigurationTab
    ensures DetermineActiveTab(None, current) == SearchTab ==>
              current.Some? && IsValidDomainForSearch(current.value) && !IsValidDomainForGolden(current.value)
  {
  }

  /** The search domain needs a subdomain: the bare host "emol.com" does not include
      ".emol.com", while "www.emol.com" does. */
  lemma SearchNeedsSubdomain(bare: string, www: string)
    requires bare == "emol.com" && www == "www.emol.com"
    ensures !IsValidDomainForSearch(Url("https://" + bare + "/", Some(bare)))
    ensures IsValidDomainForSearch(Url("https://" + www + "/", Some(www)))
  {
    assert WindowAt(www, 3, ".emol.com");
    forall i | 0 <= i <= |bare| ensures !WindowAt(bare, i, ".emol.com") {
    }
  }
}
