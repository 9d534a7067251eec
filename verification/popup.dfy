/** The decisions of popup.js, the popup of the plain JavaScript extension: the searchable
    drop-down of configured search options, the checks made before a message is sent to the
    page, the configuration file loader, the choice of the opening tab and the automatic
    filling of the Golden Call field.

    Everything the popup reads from the browser (the active tab's URL, stored settings, the
    parsed configuration file, the text of the page's elements) is a parameter; what it sends to
    the page is returned as a list of messages. */
module Popup {
  import opened Wrappers
  import opened Strings
  import opened Json
  import Config
  import Content
  import Legacy
  import Engine
  import Registry

  const GoldenCallDomains: seq<string> := ["github.com/javierhbr"]
  const SearchDomains: seq<string> := [".emol.com"]
  const RestrictedProtocols: seq<string> := ["chrome:", "chrome-extension:", "edge:", "moz-extension:", "about:"]
  const RestrictedPages: seq<string> := ["chrome.google.com/webstore"]

  /** The message of the TypeError thrown when `selectOption` is given `undefined`. */
  const UndefinedProperty: string := "Cannot read properties of undefined"
  const InvalidFormat: string :=
    "Invalid configuration format. Expected array of objects with \"label\" and \"searchValue\" properties."
  const SaveFailed: string := "Failed to save configuration to storage"

  // ---------------------------------------------------------------------------------------
  // URL checks
  // ---------------------------------------------------------------------------------------

  /** `isValidDomainForGolden(url)`: the whole URL, not only its host, includes
      "github.com/javierhbr". A missing URL is the empty string. */
  function IsValidDomainForGolden(url: string): (r: bool)
    ensures r <==> url != [] && Contains(url, "github.com/javierhbr")
  {
    url != [] && Config.AnyIncludes(url, GoldenCallDomains)
  }

  /** `isValidDomainForSearch(url)`: the URL includes ".emol.com". */
  function IsValidDomainForSearch(url: string): (r: bool)
    ensures r <==> url != [] && Contains(url, ".emol.com")
  {
    url != [] && Config.AnyIncludes(url, SearchDomains)
  }

  /** `canAccessTab(tab)`: a URL is there, it does not start with a browser-internal protocol
      and it is not a page of the browser's extension store. */
  function CanAccessTab(url: string): (r: bool)
    ensures r <==> && url != []
                   && (forall k :: 0 <= k < |RestrictedProtocols| ==> !StartsWith(url, RestrictedProtocols[k]))
                   && !Contains(url, RestrictedPages[0])
  {
    if url == [] then false
    else if AnyStartsWith(url, RestrictedProtocols) then false
    else !Config.AnyIncludes(url, RestrictedPages)
  }

  /** `prefixes.some(p => s.startsWith(p))`. */
  function AnyStartsWith(s: string, prefixes: seq<string>): (r: bool)
    ensures r <==> exists k :: 0 <= k < |prefixes| && StartsWith(s, prefixes[k])
    decreases |prefixes|
  {
    if prefixes == [] then false
    else if StartsWith(s, prefixes[0]) then true
    else
      var r := AnyStartsWith(s, prefixes[1..]);
      assert forall k :: 1 <= k < |prefixes| ==> prefixes[k] == prefixes[1..][k - 1];
      r
  }

  /** A URL the popup takes for the Golden Call page also passes the host check of
      src/utils/config.ts when it is read as a string: it includes "github.com". */
  lemma GoldenUrlIncludesHost(url: string)
    requires IsValidDomainForGolden(url)
    ensures Contains(url, "github.com")
  {
    var i :| 0 <= i <= |url| && WindowAt(url, i, "github.com/javierhbr");
    assert url[i..i + 10] == url[i..i + 20][..10];
    assert WindowAt(url, i, "github.com");
  }

  /** The converse fails: another GitHub user's page is a Golden Call page for the TypeScript
      popup and not for this one, which therefore keeps its current tab there. */
  lemma OtherUserDiffers(url: string, host: string)
    requires url == "https://github.com/octocat" && host == "github.com"
    ensures Config.IsValidDomainForGolden(Config.Url(url, Some(host)))
    ensures !IsValidDomainForGolden(url)
    ensures DetermineActiveTab(Config.SearchTab, Some(url)) == Config.SearchTab
    ensures Config.DetermineActiveTab(None, Some(Config.Url(url, Some(host)))) == Config.GoldenCall
  {
    assert WindowAt(host, 0, "github.com");
    forall i | 0 <= i <= |url| ensures !WindowAt(url, i, "github.com/javierhbr") {
      if i + 20 <= |url| {
        assert url[i..i + 20][0] == url[i] != 'g';
      }
    }
    forall i | 0 <= i <= |url| ensures !WindowAt(url, i, ".emol.com") {
      if i + 9 <= |url| {
        assert url[i..i + 9][0] == url[i] && url[i..i + 9][1] == url[i + 1];
      }
    }
  }

  /** A browser page whose address happens to include the search domain passes the domain
      check and is still refused by the access check. */
  lemma DomainCheckIsNotAccessCheck(url: string)
    requires url == "chrome://x.emol.com"
    ensures IsValidDomainForSearch(url) && !CanAccessTab(url)
  {
    assert WindowAt(url, 10, ".emol.com");
    assert StartsWith(url, RestrictedProtocols[0]);
  }

  // ---------------------------------------------------------------------------------------
  // The option picker
  // ---------------------------------------------------------------------------------------

  /** One search option: the text shown and the text searched for. */
  datatype Choice = Choice(caption: string, searchValue: string)

  /** The options used when no configuration is stored. */
  const Defaults: seq<Choice> := [
    Choice("envMode", "envMode"),
    Choice("featureFlags - Output field params parsed", "Output field params parsed"),
    Choice("keyValuePairs", "New KVP log"),
    Choice("ws-request", "Api Request builder"),
    Choice("ws-response-fields", "Output field params parsed"),
    Choice("ws-response-WsResponseDto", "WsResponseDto")
  ]

  /** The picker's state: all options, the options the typed text leaves, the index of the
      option marked by the arrow keys (-1 for none), whether the list is open, the text in the
      search field, and the search value of the option last chosen. */
  datatype Picker = Picker(
    options: seq<Choice>,
    filtered: seq<Choice>,
    highlighted: int,
    open: bool,
    input: string,
    selected: string)

  /** The marked index is -1 or points into the filtered options. */
  predicate InRange(p: Picker) {
    -1 <= p.highlighted < |p.filtered|
  }

  /** `{ label: item.label, searchValue: item.searchValue }` for an entry of a configuration
      array; the validators let only string fields through. */
  function ToChoice(item: Json): (c: Choice)
    ensures Config.GoodOption(item) ==>
              c.caption == item.fields["label"].s && c.searchValue == item.fields["searchValue"].s
  {
    Choice(StrOrEmpty(Get(item, "label")), StrOrEmpty(Get(item, "searchValue")))
  }

  function StrOrEmpty(v: Option<Json>): string {
    if v.Some? && v.value.JStr? then v.value.s else []
  }

  function ToChoices(items: seq<Json>): (r: seq<Choice>)
    ensures |r| == |items| && forall k :: 0 <= k < |items| ==> r[k] == ToChoice(items[k])
  {
    seq(|items|, k requires 0 <= k < |items| => ToChoice(items[k]))
  }

  /** `setupOptions()`: a stored non-empty array replaces the defaults; anything else (no
      stored value, not an array, an empty array, a storage error given as None) leaves the
      defaults. Reading `label` of a `null` entry throws inside the `try`, and the catch keeps
      the defaults already set. */
  function SetupOptions(stored: Option<Json>): (r: seq<Choice>)
    ensures r != []
    ensures stored.None? ==> r == Defaults
    ensures stored.Some? && stored.value.JArr? && JNull in stored.value.items ==> r == Defaults
    ensures stored.Some? && ValidateConfig(stored.value) == Success(true) && stored.value.items != [] ==>
              |r| == |stored.value.items| &&
              forall k :: 0 <= k < |r| ==>
                Config.GoodOption(stored.value.items[k]) &&
                r[k].caption == stored.value.items[k].fields["label"].s &&
                r[k].searchValue == stored.value.items[k].fields["searchValue"].s
  {
    ValidateConfigMeaning(stored.GetOr(JNull));
    if stored.Some? && stored.value.JArr? && stored.value.items != [] && JNull !in stored.value.items then
      ToChoices(stored.value.items)
    else Defaults
  }

  /** The picker when the popup opens. */
  function Start(stored: Option<Json>): (p: Picker)
    ensures InRange(p) && !p.open && p.selected == [] && p.filtered == p.options != []
  {
    var opts := SetupOptions(stored);
    Picker(opts, opts, -1, false, [], [])
  }

  /** The filter applied to one option: the lower-cased label includes the query, or a
      non-empty search value does. */
  predicate Matches(c: Choice, query: string) {
    Contains(LowerStr(c.caption), query) || (c.searchValue != [] && Contains(LowerStr(c.searchValue), query))
  }

  /** `options.filter(...)` with the option filter of `onInput`. */
  function Filter(options: seq<Choice>, query: string): (r: seq<Choice>)
    ensures |r| <= |options|
    decreases |options|
  {
    if options == [] then []
    else (if Matches(options[0], query) then [options[0]] else []) + Filter(options[1..], query)
  }

  /** The filter keeps the matching options and nothing else, in their order. */
  lemma {:induction false} FilterMeaning(options: seq<Choice>, query: string)
    ensures forall c :: c in Filter(options, query) <==> c in options && Matches(c, query)
    decreases |options|
  {
    if options != [] {
      FilterMeaning(options[1..], query);
      assert options == [options[0]] + options[1..];
    }
  }

  lemma {:induction false} FilterAppend(a: seq<Choice>, b: seq<Choice>, query: string)
    ensures Filter(a + b, query) == Filter(a, query) + Filter(b, query)
    decreases |a|
  {
    if a == [] {
      assert a + b == b;
    } else {
      FilterAppend(a[1..], b, query);
      var head := if Matches(a[0], query) then [a[0]] else [];
      assert (a + b)[0] == a[0] && (a + b)[1..] == a[1..] + b;
      assert Filter(a + b, query) == head + (Filter(a[1..], query) + Filter(b, query));
      assert head + (Filter(a[1..], query) + Filter(b, query)) == (head + Filter(a[1..], query)) + Filter(b, query);
    }
  }

  /** Every option matches the empty query, so an emptied search field shows all options. */
  lemma {:induction false} FilterEmptyQuery(options: seq<Choice>)
    ensures Filter(options, []) == options
    decreases |options|
  {
    if options != [] {
      assert WindowAt(LowerStr(options[0].caption), 0, []);
      FilterEmptyQuery(options[1..]);
      assert options == [options[0]] + options[1..];
    }
  }

  /** Filtering what has been filtered with the same query changes nothing. */
  lemma {:induction false} FilterIdempotent(options: seq<Choice>, query: string)
    ensures Filter(Filter(options, query), query) == Filter(options, query)
    decreases |options|
  {
    if options != [] {
      var head := if Matches(options[0], query) then [options[0]] else [];
      FilterAppend(head, Filter(options[1..], query), query);
      FilterIdempotent(options[1..], query);
      if Matches(options[0], query) {
        assert Filter(head, query) == [options[0]] + Filter([], query);
      }
    }
  }

  /** Lower-casing twice is lower-casing once. */
  lemma LowerStrIdempotent(s: string)
    ensures LowerStr(LowerStr(s)) == LowerStr(s)
  {
  }

  /** `onInput()` as written: the options are filtered by the lower-cased text, the mark is
      dropped and the list is opened; the option chosen earlier stays chosen, so it is still
      what a search would look for. */
  function OnInputAsWritten(p: Picker, text: string): (r: Picker)
    ensures InRange(r) && r.open && r.input == text && r.options == p.options
    ensures forall c :: c in r.filtered <==> c in p.options && Matches(c, LowerStr(text))
    ensures r.highlighted == -1 && r.selected == p.selected
    ensures p.selected != [] ==> SearchTerm(r.selected, r.input) == p.selected
  {
    FilterMeaning(p.options, LowerStr(text));
    p.(filtered := Filter(p.options, LowerStr(text)), highlighted := -1, open := true, input := text)
  }

  /** `onInput()` with the earlier choice dropped once the user types, so that a search looks
      for the typed text. */
  function OnInput(p: Picker, text: string): (r: Picker)
    ensures InRange(r) && r.open && r.input == text && r.options == p.options
    ensures forall c :: c in r.filtered <==> c in p.options && Matches(c, LowerStr(text))
    ensures r.highlighted == -1
    ensures SearchTerm(r.selected, r.input) == Trim(text)
  {
    OnInputAsWritten(p, text).(selected := [])
  }

  /** Typing is case-insensitive: the text and its lower-cased form filter alike. */
  lemma OnInputIgnoresCase(p: Picker, text: string)
    ensures OnInput(p, text).filtered == OnInput(p, LowerStr(text)).filtered
  {
    LowerStrIdempotent(text);
  }

  /** `selectOption(option)`: the label goes into the search field, the search value becomes
      the chosen value, and the list closes. A search then looks for the option's value, or
      for its trimmed label when the value is empty; the options and the mark are kept. */
  function Select(p: Picker, c: Choice): (r: Picker)
    ensures r.input == c.caption && !r.open
    ensures c.searchValue != [] ==> SearchTerm(r.selected, r.input) == c.searchValue
    ensures c.searchValue == [] ==> SearchTerm(r.selected, r.input) == Trim(c.caption)
    ensures r.options == p.options && r.filtered == p.filtered && (InRange(p) ==> InRange(r))
  {
    p.(input := c.caption, selected := c.searchValue, open := false)
  }

  datatype Key = ArrowDown | ArrowUp | Enter | Escape | Other(name: string)

  /** `onKeydown(e)`. While the list is closed ArrowDown and Enter only open it; every other
      key is handled as if it were open. Enter on a marked index past the end of the filtered
      options hands `undefined` to `selectOption`, which throws. */
  function OnKeydown(p: Picker, key: Key): (r: Result<Picker>)
    ensures r.Failure? <==> (p.open || !(key.ArrowDown? || key.Enter?)) && key.Enter? && p.highlighted >= |p.filtered|
    ensures r.Failure? ==> r.error == UndefinedProperty
    ensures !p.open && (key.ArrowDown? || key.Enter?) ==> r == Success(p.(open := true))
    ensures p.open && key.Enter? && p.highlighted < 0 ==> r == Success(p)
  {
    if !p.open && (key.ArrowDown? || key.Enter?) then Success(p.(open := true))
    else
      match key
      case ArrowDown => Success(p.(highlighted := Min(p.highlighted + 1, |p.filtered| - 1)))
      case ArrowUp => Success(p.(highlighted := Max(p.highlighted - 1, -1)))
      case Enter =>
        if p.highlighted < 0 then Success(p)
        else if p.highlighted < |p.filtered| then Success(Select(p, p.filtered[p.highlighted]))
        else Failure(UndefinedProperty)
      case Escape => Success(p.(open := false))
      case Other(_) => Success(p)
  }

  function Min(a: int, b: int): int { if a <= b then a else b }
  function Max(a: int, b: int): int { if a >= b then a else b }

  /** Every key keeps the mark in range, and in range Enter never throws. */
  lemma KeydownKeepsInRange(p: Picker, key: Key)
    requires InRange(p)
    ensures OnKeydown(p, key).Success? && InRange(OnKeydown(p, key).value)
  {
  }

  /** On an open list Enter on a marked option chooses it. */
  lemma EnterChooses(p: Picker)
    requires p.open && 0 <= p.highlighted < |p.filtered|
    ensures OnKeydown(p, Enter) == Success(Select(p, p.filtered[p.highlighted]))
    ensures OnKeydown(p, Enter).value.selected == p.filtered[p.highlighted].searchValue
  {
  }

  /** ArrowDown on an open list moves the mark down by one and stops at the last option;
      ArrowUp moves it back up and stops at -1, so ArrowUp undoes an ArrowDown that moved. */
  lemma ArrowsUndo(p: Picker)
    requires p.open && InRange(p) && p.highlighted + 1 < |p.filtered|
    ensures OnKeydown(p, ArrowDown).value.highlighted == p.highlighted + 1
    ensures OnKeydown(OnKeydown(p, ArrowDown).value, ArrowUp) == Success(p)
  {
  }

  /** On an open list the arrows stop at the ends: ArrowDown on the last option and ArrowUp
      with nothing marked change nothing. */
  lemma ArrowsClamp(p: Picker)
    requires p.open
    ensures p.highlighted == |p.filtered| - 1 ==> OnKeydown(p, ArrowDown) == Success(p)
    ensures p.highlighted == -1 ==> OnKeydown(p, ArrowUp) == Success(p)
  {
  }

  /** Typing keeps the mark in range: it is dropped. */
  lemma InputKeepsInRange(p: Picker, text: string)
    ensures InRange(OnInput(p, text)) && InRange(OnInputAsWritten(p, text))
  {
  }

  /** The search term `performSearch` uses: the chosen value, or else the trimmed text. There
      is no term exactly when nothing is chosen and the field is blank; a chosen value wins;
      otherwise the term is the typed text with only surrounding white space cut off. */
  function SearchTerm(selected: string, input: string): (r: string)
    ensures r == [] <==> selected == [] && IsBlank(input)
    ensures selected != [] ==> r == selected
    ensures selected == [] ==> (exists a :: TrimCut(input, a, r)) && (r == [] || (!IsSpace(r[0]) && !IsSpace(r[|r| - 1])))
  {
    TrimMeaning(input);
    TrimEmptyIffBlank(input);
    if selected != [] then selected else Trim(input)
  }

  /** After choosing an option and typing, the popup of popup.js still searches for the
      chosen option's value, whatever was typed, even an emptied field. */
  lemma TypedTextIgnored(p: Picker, c: Choice, text: string)
    requires c.searchValue != []
    ensures var q := OnInputAsWritten(Select(p, c), text); SearchTerm(q.selected, q.input) == c.searchValue
  {
  }

  /** With the choice dropped on typing, the search term is the typed text. */
  lemma TypedTextSearched(p: Picker, c: Choice, text: string)
    ensures var q := OnInput(Select(p, c), text); SearchTerm(q.selected, q.input) == Trim(text)
  {
  }

  /** `updateSearchButton()`: on the Golden Call tab the button is left alone (None);
      elsewhere it is disabled exactly when there is no search term. */
  function SearchButtonDisabled(tab: Config.Tab, selected: string, input: string): (r: Option<bool>)
    ensures tab == Config.GoldenCall <==> r.None?
    ensures r.Some? ==> (r.value <==> selected == [] && IsBlank(input))
  {
    TrimEmptyIffBlank(input);
    if tab == Config.GoldenCall then None else Some(selected == [] && Trim(input) == [])
  }

  /** The button is enabled exactly when `performSearch` gets past its first check. */
  lemma SearchButtonAgrees(tab: Config.Tab, selected: string, input: string, url: Option<string>)
    requires tab != Config.GoldenCall
    ensures SearchButtonDisabled(tab, selected, input) == Some(true) <==> PlanSearch(selected, input, url) == Refuse(NoTerm)
  {
    TrimEmptyIffBlank(input);
  }

  /** `updateGoldenButton()`: disabled exactly when the Golden Call field is blank. */
  function GoldenButtonDisabled(field: string): (r: bool)
    ensures r <==> IsBlank(field)
  {
    TrimEmptyIffBlank(field);
    Trim(field) == []
  }

  // ---------------------------------------------------------------------------------------
  // The configuration file
  // ---------------------------------------------------------------------------------------

  /** `validateConfig(config)` of popup.js: an array whose entries are objects with string
      `label` and `searchValue`. `typeof null` is 'object', so a `null` entry reaches the
      property read and throws. */
  function ValidateConfig(c: Json): (r: Result<bool>)
    ensures r.Failure? ==> r.error == NullProperty
  {
    if !c.JArr? then Success(false) else Config.EveryOption(c.items)
  }

  /** The two validators accept nothing in common: src/utils/config.ts wants an object with
      an `options` array, popup.js wants the array itself. */
  lemma ValidatorsDisagree(c: Json)
    ensures !(ValidateConfig(c) == Success(true) && Config.ValidateConfig(c) == Success(true))
  {
    Config.ValidateConfigMeaning(c);
  }

  /** A configuration popup.js accepts is an array of good entries. */
  lemma ValidateConfigMeaning(c: Json)
    ensures ValidateConfig(c) == Success(true) <==>
              c.JArr? && forall k :: 0 <= k < |c.items| ==> Config.GoodOption(c.items[k])
  {
    if c.JArr? {
      Config.EveryOptionTrue(c.items);
    }
  }

  /** What `handleConfigFile` and `clearStoredConfig` do to the picker as written: new
      options, all shown, an empty field, no choice, and the list shown when there are
      options. The mark is not touched, so it stays in range only when it still points into
      the new options. */
  function LoadOptionsAsWritten(p: Picker, options: seq<Choice>): (r: Picker)
    ensures r.options == options && r.filtered == options && SearchTerm(r.selected, r.input) == []
    ensures r.highlighted == p.highlighted
    ensures InRange(r) <==> -1 <= p.highlighted < |options|
    ensures r.open == (options != [] || p.open)
  {
    Picker(options, options, p.highlighted, options != [] || p.open, [], [])
  }

  /** The same with the mark dropped, as `onInput` does: the mark is in range whatever is
      loaded. */
  function LoadOptions(p: Picker, options: seq<Choice>): (r: Picker)
    ensures r.options == options && r.filtered == options && SearchTerm(r.selected, r.input) == []
    ensures r.highlighted == -1 && InRange(r)
    ensures r.open == (options != [] || p.open)
  {
    LoadOptionsAsWritten(p, options).(highlighted := -1)
  }

  /** A mark left on the third of three options survives loading a one-option configuration,
      and Enter on the re-opened list then throws. */
  lemma StaleMarkThrows(p: Picker, options: seq<Choice>)
    requires |p.filtered| == 3 && p.highlighted == 2 && |options| == 1
    ensures InRange(p) && !InRange(LoadOptionsAsWritten(p, options))
    ensures LoadOptionsAsWritten(p, options).open
    ensures OnKeydown(LoadOptionsAsWritten(p, options), Enter) == Failure(UndefinedProperty)
  {
  }

  /** Dropping the mark keeps it in range whatever is loaded. */
  lemma LoadOptionsKeepsInRange(p: Picker, options: seq<Choice>)
    ensures InRange(LoadOptions(p, options))
    ensures OnKeydown(LoadOptions(p, options), Enter).Success?
  {
  }

  /** `handleConfigFile(event)` after `JSON.parse`: a rejected or unsaveable configuration is
      an error and leaves the picker alone; an accepted one is saved and replaces the
      options, with the field and the choice emptied and the mark left where it was.
      `saved` is whether writing to storage worked. */
  function HandleConfigFile(p: Picker, config: Json, saved: bool): (r: Result<Picker>)
    ensures r.Success? <==> ValidateConfig(config) == Success(true) && saved
    ensures r.Success? ==> r.value.filtered == r.value.options && SearchTerm(r.value.selected, r.value.input) == []
    ensures r.Success? ==> r.value.highlighted == p.highlighted
    ensures r.Failure? ==> r.error == NullProperty || r.error == InvalidFormat || r.error == SaveFailed
  {
    match ValidateConfig(config)
    case Failure(e) => Failure(e)
    case Success(ok) =>
      if !ok then Failure(InvalidFormat)
      else if !saved then Failure(SaveFailed)
      else Success(LoadOptionsAsWritten(p, ToChoices(config.items)))
  }

  /** `handleConfigFile` with the mark dropped on loading. */
  function HandleConfigFileFixed(p: Picker, config: Json, saved: bool): (r: Result<Picker>)
    ensures r.Success? <==> HandleConfigFile(p, config, saved).Success?
    ensures r.Success? ==> r.value == HandleConfigFile(p, config, saved).value.(highlighted := -1) && InRange(r.value)
    ensures r.Failure? ==> r == HandleConfigFile(p, config, saved)
  {
    match HandleConfigFile(p, config, saved)
    case Success(q) => Success(q.(highlighted := -1))
    case Failure(e) => Failure(e)
  }

  /** A loaded configuration's options are its entries' labels and search values, in order. */
  lemma LoadedOptions(p: Picker, config: Json)
    requires HandleConfigFile(p, config, true).Success?
    ensures config.JArr? && forall k :: 0 <= k < |config.items| ==> Config.GoodOption(config.items[k])
    ensures var q := HandleConfigFile(p, config, true).value;
            |q.options| == |config.items| &&
            forall k :: 0 <= k < |config.items| ==>
              q.options[k].caption == config.items[k].fields["label"].s &&
              q.options[k].searchValue == config.items[k].fields["searchValue"].s
  {
    ValidateConfigMeaning(config);
  }

  /** A saved configuration comes back when the popup is opened again: `setupOptions` reads
      the stored array into the options `handleConfigFile` showed, provided it is not empty. */
  lemma {:induction false} SavedConfigReloads(p: Picker, config: Json)
    requires HandleConfigFile(p, config, true).Success? && config.JArr? && config.items != []
    ensures SetupOptions(Some(config)) == HandleConfigFile(p, config, true).value.options
  {
    ValidateConfigMeaning(config);
  }

  /** The exception: an empty array is accepted and shows no options, yet the next popup
      falls back to the six defaults. */
  lemma EmptyConfigNotReloaded(p: Picker)
    ensures HandleConfigFile(p, JArr([]), true).Success?
    ensures HandleConfigFile(p, JArr([]), true).value.options == []
    ensures SetupOptions(Some(JArr([]))) == Defaults
  {
  }

  /** `clearStoredConfig()`: once the stored configuration is removed `setupOptions` finds
      nothing and the defaults come back, shown in an opened list, with the field and the
      choice emptied and the mark left where it was; when removing fails (`removed` false)
      nothing changes. */
  function ClearStoredConfig(p: Picker, removed: bool): (r: Picker)
    ensures removed ==> r.options == Defaults && r.filtered == Defaults && SearchTerm(r.selected, r.input) == [] && r.open
    ensures removed ==> r.highlighted == p.highlighted
    ensures !removed ==> r == p
  {
    if removed then LoadOptionsAsWritten(p, SetupOptions(None)) else p
  }

  /** `clearStoredConfig` with the mark dropped on loading. */
  function ClearStoredConfigFixed(p: Picker, removed: bool): (r: Picker)
    ensures removed ==> r == ClearStoredConfig(p, removed).(highlighted := -1)
    ensures !removed ==> r == p
  {
    if removed then LoadOptions(p, SetupOptions(None)) else p
  }

  /** Resetting the configuration gives the picker a fresh popup starts with, opened; as
      written the old mark survives. */
  lemma ClearRestartsPicker(p: Picker)
    ensures ClearStoredConfigFixed(p, true) == Start(None).(open := true)
    ensures ClearStoredConfig(p, true) == Start(None).(open := true, highlighted := p.highlighted)
  {
  }

  /** As written, a mark on the ninth of ten filtered options survives the reset to the six
      defaults, and Enter on the opened list then throws. */
  lemma ClearLeavesStaleMark(p: Picker)
    requires |p.filtered| == 10 && p.highlighted == 8
    ensures InRange(p) && !InRange(ClearStoredConfig(p, true))
    ensures OnKeydown(ClearStoredConfig(p, true), Enter) == Failure(UndefinedProperty)
  {
  }

  /** With the mark dropped, whatever the user does, the mark stays in range. */
  lemma ClearKeepsInRange(p: Picker, removed: bool)
    requires InRange(p)
    ensures InRange(ClearStoredConfigFixed(p, removed))
    ensures OnKeydown(ClearStoredConfigFixed(p, removed), Enter).Success?
  {
    KeydownKeepsInRange(ClearStoredConfigFixed(p, removed), Enter);
  }

  // ---------------------------------------------------------------------------------------
  // Messages to the page
  // ---------------------------------------------------------------------------------------

  /** Why a button press sends nothing. */
  datatype Refusal =
    | NoTerm        // 'Please enter or select a search term'
    | NoGoldenId    // 'Please enter a Golden Call ID'
    | NoTab         // the active tab could not be read
    | WrongDomain   // 'Search only works on emol.com domains' / 'Golden Call only works on ...'
    | Restricted    // 'Cannot search on this page' / 'Cannot clear highlights on this page'

  /** What a button press does: refuse with a status, or send these messages to the page. */
  datatype Plan = Refuse(why: Refusal) | Send(messages: seq<Content.Request>)

  const ClearMessage: Content.Request := Content.Request("clear", [], [])

  function SearchMessage(term: string): Content.Request {
    Content.Request("search", term, [])
  }

  /** `performSearch()`: the term, the domain and the access checks in that order, then a
      "clear" message and a "search" message. `tab` is the active tab's URL, None when the
      query fails. */
  function PlanSearch(selected: string, input: string, tab: Option<string>): (r: Plan)
    ensures r == Refuse(NoTerm) <==> SearchTerm(selected, input) == []
    ensures r.Send? <==> && SearchTerm(selected, input) != [] && tab.Some?
                         && IsValidDomainForSearch(tab.value) && CanAccessTab(tab.value)
    ensures r.Send? ==> r.messages == [ClearMessage, SearchMessage(SearchTerm(selected, input))]
  {
    var term := SearchTerm(selected, input);
    if term == [] then Refuse(NoTerm)
    else if tab.None? then Refuse(NoTab)
    else if !IsValidDomainForSearch(tab.value) then Refuse(WrongDomain)
    else if !CanAccessTab(tab.value) then Refuse(Restricted)
    else Send([ClearMessage, SearchMessage(term)])
  }

  /** `getGoldenCall()`: the same checks with the trimmed Golden Call field and the Golden Call
      domain. */
  function PlanGolden(field: string, tab: Option<string>): (r: Plan)
    ensures r == Refuse(NoGoldenId) <==> IsBlank(field)
    ensures r.Send? <==> && !IsBlank(field) && tab.Some?
                         && IsValidDomainForGolden(tab.value) && CanAccessTab(tab.value)
    ensures r.Send? ==> r.messages == [ClearMessage, SearchMessage(Trim(field))]
  {
    TrimEmptyIffBlank(field);
    var id := Trim(field);
    if id == [] then Refuse(NoGoldenId)
    else if tab.None? then Refuse(NoTab)
    else if !IsValidDomainForGolden(tab.value) then Refuse(WrongDomain)
    else if !CanAccessTab(tab.value) then Refuse(Restricted)
    else Send([ClearMessage, SearchMessage(id)])
  }

  /** `clearHighlights()`: only the access check. */
  function PlanClear(tab: Option<string>): (r: Plan)
    ensures r.Send? <==> tab.Some? && CanAccessTab(tab.value)
    ensures r.Send? ==> r.messages == [ClearMessage]
  {
    if tab.None? then Refuse(NoTab)
    else if !CanAccessTab(tab.value) then Refuse(Restricted)
    else Send([ClearMessage])
  }

  /** content.ts answering the messages in order. popup.js:561-564 injects the file
      `content.js`, and the build names its output for content.ts so (vite.config.ts:46-49):
      in the built extension this is the receiver. `DeliverJs` is the other one. */
  function Deliver(st: Registry.State, url: string, messages: seq<Content.Request>): Registry.State
    decreases |messages|
  {
    if messages == [] then st else Deliver(Content.Dispatch(st, url, messages[0]).state, url, messages[1..])
  }

  /** Every message the popup sends is one content.ts knows, and a search request ends with
      the page cleared and then searched for the term by content.ts. */
  lemma SearchPlanDelivered(selected: string, input: string, tab: Option<string>, st: Registry.State)
    requires PlanSearch(selected, input, tab).Send?
    ensures forall k :: 0 <= k < |PlanSearch(selected, input, tab).messages| ==>
              Content.Known(PlanSearch(selected, input, tab).messages[k])
    ensures Deliver(st, tab.value, PlanSearch(selected, input, tab).messages)
            == Engine.Search(Engine.Ts, Engine.AsWritten, Registry.Clear(st), SearchTerm(selected, input))
  {
    ClearThenSearch(st, tab.value, SearchTerm(selected, input), PlanSearch(selected, input, tab).messages);
    SearchMessagesKnown(SearchTerm(selected, input), PlanSearch(selected, input, tab).messages);
  }

  lemma ClearThenSearch(st: Registry.State, url: string, term: string, messages: seq<Content.Request>)
    requires term != [] && messages == [ClearMessage, SearchMessage(term)]
    ensures Deliver(st, url, messages) == Engine.Search(Engine.Ts, Engine.AsWritten, Registry.Clear(st), term)
  {
    DeliverPair(st, url, ClearMessage, SearchMessage(term));
    ClearDelivered(st, url);
    SearchDelivered(Registry.Clear(st), url, term);
  }

  /** Both messages of a search are ones content.ts knows. */
  lemma SearchMessagesKnown(term: string, messages: seq<Content.Request>)
    requires term != [] && messages == [ClearMessage, SearchMessage(term)]
    ensures forall k :: 0 <= k < |messages| ==> Content.Known(messages[k])
  {
    assert Content.Known(messages[0]) && Content.Known(messages[1]);
  }

  /** Delivering a message ahead of others answers it first. */
  lemma DeliverFirst(st: Registry.State, url: string, m: Content.Request, rest: seq<Content.Request>)
    ensures Deliver(st, url, [m] + rest) == Deliver(Content.Dispatch(st, url, m).state, url, rest)
  {
    assert ([m] + rest)[1..] == rest;
  }

  /** Delivering two messages is answering the first, then the second on the page it left. */
  lemma DeliverPair(st: Registry.State, url: string, first: Content.Request, second: Content.Request)
    ensures Deliver(st, url, [first, second])
            == Content.Dispatch(Content.Dispatch(st, url, first).state, url, second).state
  {
    var next := Content.Dispatch(st, url, first).state;
    assert [first, second] == [first] + [second];
    DeliverFirst(st, url, first, [second]);
    assert [second] == [second] + [];
    DeliverFirst(next, url, second, []);
  }

  /** The "clear" message clears the page. */
  lemma ClearDelivered(st: Registry.State, url: string)
    ensures Content.Dispatch(st, url, ClearMessage).state == Registry.Clear(st)
  {
  }

  /** A "search" message with a term searches the page for it. */
  lemma SearchDelivered(st: Registry.State, url: string, term: string)
    requires term != []
    ensures Content.Dispatch(st, url, SearchMessage(term)).state == Engine.Search(Engine.Ts, Engine.AsWritten, st, term)
  {
  }

  /** The plain content.js of the repository root answering the messages in order, through
      its listener; `hits` is what its selectors find on the page. As written the script never
      loads (`Legacy.NeverLoads`), so this is the listener of its corrected start-up. */
  function DeliverJs(st: Registry.State, url: string, hits: seq<Option<string>>, messages: seq<Content.Request>): Registry.State
    decreases |messages|
  {
    if messages == [] then st
    else DeliverJs(Legacy.Listen(st, url, hits, messages[0]).state, url, hits, messages[1..])
  }

  /** Delivered to content.js, a search request clears the page and then searches it for the
      term with content.js's highlighter. */
  lemma SearchPlanDeliveredJs(selected: string, input: string, tab: Option<string>, st: Registry.State, hits: seq<Option<string>>)
    requires PlanSearch(selected, input, tab).Send?
    ensures DeliverJs(st, tab.value, hits, PlanSearch(selected, input, tab).messages)
            == Engine.Search(Engine.Js, Engine.AsWritten, Registry.Clear(st), SearchTerm(selected, input))
  {
    ClearThenSearchJs(st, tab.value, hits, SearchTerm(selected, input), PlanSearch(selected, input, tab).messages);
  }

  /** Delivered to content.js, a Golden Call request clears the page and searches it for the
      trimmed id, which is never blank, so the search is not reduced to a clear. */
  lemma GoldenPlanDeliveredJs(field: string, tab: Option<string>, st: Registry.State, hits: seq<Option<string>>)
    requires PlanGolden(field, tab).Send?
    ensures DeliverJs(st, tab.value, hits, PlanGolden(field, tab).messages)
            == Engine.Search(Engine.Js, Engine.AsWritten, Registry.Clear(st), Trim(field))
    ensures !IsBlank(Trim(field))
  {
    GoldenTermNotBlank(field, tab);
    ClearThenSearchJs(st, tab.value, hits, Trim(field), PlanGolden(field, tab).messages);
  }

  lemma ClearThenSearchJs(st: Registry.State, url: string, hits: seq<Option<string>>, term: string, messages: seq<Content.Request>)
    requires messages == [ClearMessage, SearchMessage(term)]
    ensures DeliverJs(st, url, hits, messages) == Engine.Search(Engine.Js, Engine.AsWritten, Registry.Clear(st), term)
  {
    var first := Legacy.Listen(st, url, hits, ClearMessage).state;
    assert first == Registry.Clear(st);
    assert messages[1..] == [SearchMessage(term)];
    assert messages[1..][1..] == [];
    assert DeliverJs(first, url, hits, messages[1..])
           == DeliverJs(Legacy.Listen(first, url, hits, SearchMessage(term)).state, url, hits, []);
  }

  /** The Golden Call search term is never blank, so content.js searches with it rather than
      only clearing the page. */
  lemma GoldenTermNotBlank(field: string, tab: Option<string>)
    requires PlanGolden(field, tab).Send?
    ensures !IsBlank(PlanGolden(field, tab).messages[1].searchTerm)
  {
    TrimIdempotent(field);
    TrimEmptyIffBlank(Trim(field));
  }

  // ---------------------------------------------------------------------------------------
  // The opening tab and the Golden Call field
  // ---------------------------------------------------------------------------------------

  /** `determineActiveTab()` of popup.js: the tab for the URL's domain, and the current tab
      when there is no URL, the query fails (None), or neither domain matches. */
  function DetermineActiveTab(current: Config.Tab, url: Option<string>): (r: Config.Tab)
    ensures r == current || r == Config.GoldenCall || r == Config.SearchTab
    ensures r == Config.SearchTab && current != Config.SearchTab ==>
              url.Some? && IsValidDomainForSearch(url.value) && !IsValidDomainForGolden(url.value)
    ensures url.None? || url.value == [] ==> r == current
    ensures url.Some? && IsValidDomainForGolden(url.value) ==> r == Config.GoldenCall
    ensures url.Some? && !IsValidDomainForGolden(url.value) && IsValidDomainForSearch(url.value) ==> r == Config.SearchTab
    ensures url.Some? && !IsValidDomainForGolden(url.value) && !IsValidDomainForSearch(url.value) ==> r == current
  {
    if url.None? || url.value == [] then current
    else if IsValidDomainForGolden(url.value) then Config.GoldenCall
    else if IsValidDomainForSearch(url.value) then Config.SearchTab
    else current
  }

  /** A URL on either domain decides the tab alone, whatever tab was showing; on neither
      domain the showing tab stays. */
  lemma DomainOverridesCurrent(a: Config.Tab, b: Config.Tab, url: Option<string>)
    ensures url.Some? && (IsValidDomainForGolden(url.value) || IsValidDomainForSearch(url.value)) ==>
              DetermineActiveTab(a, url) == DetermineActiveTab(b, url)
    ensures url.Some? && !IsValidDomainForGolden(url.value) && !IsValidDomainForSearch(url.value) ==>
              DetermineActiveTab(a, url) == a
  {
  }

  /** Asking twice gives the same tab. */
  lemma DetermineActiveTabIdempotent(current: Config.Tab, url: Option<string>)
    ensures DetermineActiveTab(DetermineActiveTab(current, url), url) == DetermineActiveTab(current, url)
  {
  }

  /** `autoPopulateGoldenCall()`: on an accessible Golden Call page, and unless a run is
      already in progress (`busy`), the field takes the trimmed text of the first element with
      usable text; otherwise it keeps its value. `hits` are the elements' texts in the order
      of the selectors content.js uses. */
  function AutoPopulate(busy: bool, url: string, hits: seq<Option<string>>, field: string): (r: string)
    ensures r != field ==> !busy && IsValidDomainForGolden(url) && CanAccessTab(url)
  {
    if busy || !IsValidDomainForGolden(url) || !CanAccessTab(url) then field
    else
      match Legacy.FirstHit(hits)
      case Some(k) => Trim(hits[k].value)
      case None => field
  }

  /** What the popup fills in is what content.js would answer, except that the popup never
      falls back to the URL; and a filled-in field enables the Golden Call button. */
  lemma AutoPopulateAgrees(url: string, hits: seq<Option<string>>, field: string)
    requires IsValidDomainForGolden(url) && CanAccessTab(url)
    ensures Legacy.FirstHit(hits).Some? ==>
              Some(AutoPopulate(false, url, hits, field)) == Legacy.GoldenIdValue(hits, url)
              && !GoldenButtonDisabled(AutoPopulate(false, url, hits, field))
    ensures Legacy.FirstHit(hits).None? ==> AutoPopulate(false, url, hits, field) == field
  {
    if Legacy.FirstHit(hits).Some? {
      var k := Legacy.FirstHit(hits).value;
      TrimIdempotent(hits[k].value);
    }
  }
}
