# Content Search extension: a Dafny model of its search-and-highlight core

This project models the core of the Content Search browser extension:

- **The content script's engine** (src/content/content.ts, and its older plain JavaScript form content.js).
  - It finds the text nodes of a page that contain a search term, ignoring case.
  - It wraps every match in a numbered highlight span and records the spans in a registry.
  - It marks the first span as the current one and shows a transient counter.
  - It later turns every registered span back into plain text.
  - It answers the popup's messages and guards against being injected twice.
- **The pure decisions of src/utils/config.ts.** These are the configuration validator, the domain checks, and the choice of the tab the popup opens on.
- **The pure logic of popup.js.** This covers:
  - the searchable drop-down of search options;
  - the checks made before a message goes to the page;
  - the configuration file loader;
  - the opening tab;
  - the automatic filling of the Golden Call field.

The page is a sequence of *slots*. A slot is the stretch of a parent's child list that stands where one original text node stood. It holds its parent element (tag and classes) and a run of nodes; a node is a text node or a highlight span carrying its `data-search-index`. The engine state is a `Registry.State`, which pairs the page with a session. The session holds the registered span indices, the current index and the counter element.

Each operation is a pure function of its inputs:

- The regular expression the engine builds from the escaped term is modelled as a case-insensitive literal matcher. `Pattern.LiteralOfEscape` and `Pattern.EscapeOfLiteral` justify that.
- `String.prototype.match`, `split` with a capturing group, and `RegExp.prototype.test` with its `lastIndex` are modelled in `Regex`.
- What the browser provides is a parameter: stored settings, the active tab's URL, the parsed configuration file, the text of elements found by CSS selectors, and whether a storage write worked.

Both scripts run through one engine (`Engine.Search`) parameterised by the script (`Ts`, `Js`) and the highlighter variant (`AsWritten`, `Corrected`). The as-written variant is the code as it stands. The corrected variant is the fix described under "## Findings".

Some behaviours of the code are easy to misread, and the model follows the code in each:

- **The search term is not trimmed.** Only a blank term is refused; a non-blank term is matched with its surrounding white space.
- **Adjacent matches do not get a span each.** Text "aa" searched for "a" gives one span and one text node in content.ts (`Highlighter.AdjacentMatchesOneSpan`); see "## Findings".
- **content.js is not reversible.** It duplicates every match's text, so clearing does not give the page back (`Engine.JsClearKeepsDuplicate`). content.ts is reversible (`Engine.SearchRoundTrip`).
- **Stale counter timers are not harmless.** content.ts's 3-second timer removes whatever counter is current, including the counter of a later search (`Engine.StaleTimerRemovesNewCounter`).
- **Only content.js skips the extension's own elements.** content.ts's walker checks tags only, so text under an element of the highlight or counter class is searched by content.ts and skipped by content.js (`Content.CounterClassSearched`). content.ts's own counter is not among them, because the clear removes it before the walk.
- **Empty-term searches and unknown actions are answered differently.**
  - content.ts answers a "search" message without a term with "Unknown action" and does not clear the page (`Content.UnknownIffNotKnown`).
  - content.js sends no answer to an unknown action yet keeps the reply channel open (`Legacy.Listen`).
- **content.js:2-5 cannot load as written.** Its injection guard is a top-level `return`, which is a syntax error in a classic script; see "## Findings". `Legacy.Step` and `Legacy.Run` model both the script as written (it never runs) and the evident intent (a second injection does nothing).
- **The popup keeps a stale option mark.** Loading a configuration file and resetting to the defaults both keep `highlightedIndex`; see "## Findings". `Popup.HandleConfigFile` and `Popup.ClearStoredConfig` are the code as written, and `Popup.HandleConfigFileFixed` and `Popup.ClearStoredConfigFixed` drop the mark.

## Model

| member | source | states |
|---|---|---|
| Content.Dispatch | src/content/content.ts:13-55 | Only "search" and "clear" change the page. A failure response leaves the page alone and is either "Unknown action" or "Golden ID not found". A golden ID read from the URL is non-empty and holds no '/'. |
| Content.UnknownIffNotKnown | src/content/content.ts:18-49 | The response is "Unknown action" exactly for the messages other than ping, clear, getGolden and a search with a term. Such a message does not touch the page, so a search without a term does not even clear it. |
| Content.DispatchKeepsOwned | src/content/content.ts:22-29 | Every message keeps the invariant that every span on the page is a registered one. |
| Content.SearchThenClear | src/content/content.ts:22-29 | A "search" message followed by a "clear" message gives a plain page back exactly. |
| Content.GoldenFromProfile | src/content/content.ts:30-44 | On https://github.com/&lt;user&gt;, optionally followed by a path, "getGolden" without an ID answers with exactly &lt;user&gt;. |
| Content.CounterClassSearched | src/content/content.ts:70-83 | content.ts's filter accepts a matching text node under an element of the counter class that it does not own, because it checks tags only; content.js's filter rejects the same node. |
| Content.InitTs | src/content/content.ts:237-246 | After the initializer runs, the class and an instance exist. A run with both already present changes nothing; any other run adds exactly one listener. |
| Content.InitTsIdempotent | src/content/content.ts:237-249 | A second injection leaves the window as the first one left it. |
| Content.OneListener | src/content/content.ts:237-249 | However many times the script is injected into a page (at least once), exactly one listener is registered. |
| Engine.HighlightWith | src/content/content.ts:111-113 | Every highlighter skips a text node exactly when `match` finds nothing in it. |
| Engine.AcceptsCompared | src/content/content.ts:70-83 | Every text node content.js's walker accepts (content.js:43-50), content.ts's walker accepts too. They differ exactly on nodes under an element of the highlight or counter class. |
| Engine.HighlightWithFacts | src/content/content.ts:106-135 | A node with matches gets at least one span and at most one per match, numbered consecutively from the registry length. There is exactly one per match for content.js and the corrected highlighter. The node's text is kept by content.ts and by the corrected highlighter. |
| Engine.NodeFacts | src/content/content.ts:70-95 | A text node gains spans exactly when the walker collects it (a parent that is not excluded, and the term present ignoring case). A node that gains nothing stays as it was. |
| Engine.PageFacts | src/content/content.ts:87-95 | Walking the page keeps every slot's parent and, where the highlighter keeps text, its text. A slot that gains no span is untouched. The span count relates to the total matches as `NodeFacts` says. |
| Engine.PageNumbers | src/content/content.ts:124-126 | On a page without spans, the new spans carry consecutive indices in document order, starting from the registry length. |
| Engine.ClearedRegistry | src/content/content.ts:93-99 | After highlighting a span-free page, the registry lists exactly the spans on the page (0, 1, … in document order), and exactly the first one is active when there is one. |
| Engine.ClearedShape | src/content/content.ts:93-95 | Highlighting after the clear changes a slot only by adding spans. It keeps the slot's parent, and its text where the highlighter keeps text. |
| Engine.SearchBlank | src/content/content.ts:59-63 | A blank term only clears. |
| Engine.Search | src/content/content.ts:58-104 | After any search the registry is numbered 0, 1, … and the current index is 0. A non-blank term always leaves an attached counter. content.js's `performSearch` (content.js:31-79) runs through the same function. |
| Engine.SearchCleared | src/content/content.ts:65-103 | After the clear, a search registers its spans as 0, 1, …, makes the first current, and shows an attached, undimmed counter. |
| Engine.SearchRegistry | src/content/content.ts:58-104 | After any search, the registry lists every span on the page, numbered 0, 1, … in document order. The current index is 0 and the session owns the page. |
| Engine.SearchCounts | src/content/content.ts:97-103 | The number of spans is at most the total matches `match` reports over the collected nodes, equal to it for content.js and the corrected highlighter, and 0 only when there are no matches. The counter is red "No matches found" exactly when there are no matches. Otherwise it shows "N match(es) found", with content.ts's span count or content.js's match count. |
| Engine.SearchActive | src/content/content.ts:141-160 | After a search exactly one span is active, the first, when any span exists; otherwise none is. |
| Engine.SearchKeepsText | src/content/content.ts:93-95 | A search keeps every slot's parent, and its text for content.ts and the corrected highlighter. |
| Engine.ClearPlain | src/content/content.ts:199-211 | Clearing leaves a page without spans and with normalized text exactly as it is. |
| Engine.SearchRoundTrip | src/content/content.ts:58-104 | For content.ts and the corrected highlighter, clearing after a search restores a plain page exactly (search and clear are inverse). |
| Engine.SearchIdempotent | src/content/content.ts:58-63 | Searching again for the same term, on a page that started plain, gives the same state. |
| Engine.JsSearchDuplicates | content.js:96-124 | On the paragraph "xfoox", content.js's search for "foo" leaves the text "x", the active span "foo", a second text "foo" and "x". |
| Engine.JsClearKeepsDuplicate | content.js:190-202 | Clearing that page gives the paragraph "xfoofoox", not the original "xfoox". |
| Engine.MarkCurrentFacts | src/content/content.ts:152-160 | Marking the current highlight keeps every node's text and index. The active spans are exactly those whose index is the current one. |
| Engine.MarkCurrent | src/content/content.ts:152-160 | Marking the current highlight keeps every slot, its parent and its number of nodes. |
| Engine.Expire | src/content/content.ts:170-189 | content.ts's timer, and content.js's timer after "No matches found", leave no attached counter. content.js's timer after a count keeps the counter and only dims it. The registry is untouched. |
| Engine.StaleTimerRemovesNewCounter | src/content/content.ts:170-175 | A content.ts timer firing after any later non-blank search removes that search's counter. |
| Highlighter.HighlightText | src/content/content.ts:106-135 | The highlighter as written keeps the node's text and makes at least one and at most one per match of consecutively numbered spans. It makes one per match exactly when no two matches touch. |
| Highlighter.EmitKeepsText | src/content/content.ts:118-132 | The fragment the loop builds holds exactly the text of the split parts. |
| Highlighter.Emit | src/content/content.ts:118-132 | The loop makes at most one node per part, and its spans are numbered from the registry length with at most one per node. |
| Highlighter.EmitNumbers | src/content/content.ts:124-126 | The loop's spans carry consecutive indices, and the registry grows by their number. |
| Highlighter.EmitIsRender | src/content/content.ts:118-132 | The loop with its carried `lastIndex` equals an independent reference that highlights a match unless it directly follows a highlighted match. |
| Highlighter.MarksRule | src/content/content.ts:118-132 | The first match is always highlighted. A later match is highlighted exactly when text separates it from the previous match or the previous match was not highlighted. |
| Highlighter.AllMarkedIffApart | src/content/content.ts:118-132 | Every match of a node is highlighted if and only if no two of its matches are adjacent. |
| Highlighter.HighlightTextFixed | src/content/content.ts:106-135 | The corrected highlighter keeps the text. Its spans hold exactly the matches, in order, one per match, numbered consecutively. |
| Highlighter.FixedAgreesWhenApart | src/content/content.ts:118-132 | The code as written and the corrected highlighter agree on every node whose matches do not touch. |
| Highlighter.AdjacentMatchesOneSpan | src/content/content.ts:120 | For text "aa" and term "a" there are two matches. The code as written makes one span and one text node; the corrected highlighter makes two spans. |
| Regex.FindFromMeaning | src/content/content.ts:112 | The scan finds the leftmost case-insensitive occurrence at or after the start, and finds nothing only when there is none. |
| Regex.SplitFrom | src/content/content.ts:115 | A split always has an odd number of parts: text, match, text, …, text. |
| Regex.MatchAllFrom | src/content/content.ts:112 | Every entry `match` returns is an occurrence of the term, and there are never more entries than characters after the start. |
| Regex.MatchesFit | src/content/content.ts:112 | The matches do not overlap: together they take no more characters than the text has after the start. |
| Regex.SplitShape | src/content/content.ts:115 | `split` with the capturing regex alternates match-free text and single occurrences. Its odd parts are exactly the list `match` returns, and joining the parts gives back the text. |
| Regex.MatchAllEmptyIffNotContains | src/content/content.ts:80-113 | `match` finds nothing exactly when the lower-cased text does not include the lower-cased term, so the walker's filter and the highlighter agree. |
| Regex.TestMeaning | src/content/content.ts:120 | A successful `test` reports an occurrence ending at the new `lastIndex`. A failed one means no occurrence from the old `lastIndex` on, and resets it to 0. |
| Regex.Test | src/content/content.ts:120 | A successful `test` moves `lastIndex` past a whole occurrence, no further than the end of the text. A failed one resets it to 0. |
| Regex.TestFree | src/content/content.ts:120 | `test` on match-free text fails and resets `lastIndex`, whatever it was. |
| Regex.TestOccurrence | src/content/content.ts:120 | `test` on a single occurrence succeeds from `lastIndex` 0 and fails from any other `lastIndex`. |
| Pattern.Escape | src/content/content.ts:137-139 | Escaping adds exactly one character per regex metacharacter. |
| Pattern.LiteralOfEscape | src/content/content.ts:137-139 | The escaped term is a pattern of literal atoms that matches exactly the term. |
| Pattern.EscapeOfLiteral | src/content/content.ts:137-139 | Every literal pattern is the escape of the string it matches; this is the inverse direction of the round trip. |
| Pattern.EscapeIdentityIffNoMeta | src/content/content.ts:137-139 | A term is its own pattern exactly when it contains no metacharacter. |
| Dom.Normalize | src/content/content.ts:204 | `normalize()` leaves no empty and no adjacent text nodes. It keeps the text and every span. |
| Dom.NormalizeIdempotent | src/content/content.ts:204 | Normalizing a normalized run changes nothing. |
| Dom.NormalizedTextOnly | src/content/content.ts:200-206 | A normalized run without spans is a single text node holding all its text, or nothing. |
| Registry.RemoveCounter | src/content/content.ts:192-197 | An attached counter is removed. A counter that lost its parent stays referenced. |
| Registry.CounterText | src/content/content.ts:167 | The counter text opens with a digit and ends in " found", so a count text is never the "No matches found" text. |
| Registry.CounterTextReadsBack | src/content/content.ts:167 | The counter text starts with the decimal count, which reads back to the count, and says "1 match found" exactly for one. |
| Registry.ReplaceSpan | src/content/content.ts:203 | Replacing a span by a text node keeps the text and removes exactly that span's index. |
| Registry.RestoreIn | src/content/content.ts:203-204 | Replacing then normalizing keeps the text, leaves a normalized run and removes exactly that span's index. |
| Registry.RestoreSpan | src/content/content.ts:200-206 | One iteration removes exactly the given index from the page's spans. Every slot keeps its parent and text, and changes only if it held spans. |
| Registry.RestoreAll | src/content/content.ts:200-206 | The loop removes exactly the registered indices from the page's spans (as multisets). Every slot keeps its parent and text. |
| Registry.RestoreAllOwned | src/content/content.ts:199-211 | When every span was registered, none is left and every slot that held spans is again one text node with its text. |
| Registry.Clear | src/content/content.ts:199-211 | The clear empties the registry, resets the index and removes an attached counter. Every slot keeps its parent and text. On an owned page no span is left, and each slot that held spans is one text node again. |
| Registry.ClearIdempotent | src/content/content.ts:199-211 | Clearing twice is clearing once. |
| Registry.ClearOwned | src/content/content.ts:199-211 | The clear keeps the invariant that every span on the page is registered. |
| Golden.GithubUser | src/content/content.ts:213-225 | There is no user exactly when "github.com/" followed by a character other than '/' occurs nowhere in the URL. Otherwise the user is the whole run of non-'/' characters after the leftmost such occurrence, so it is never empty and never holds '/'. |
| Golden.ProfileUrlGivesUser | src/content/content.ts:216-218 | For https://github.com/&lt;user&gt;, followed by nothing or by a path, the capture is exactly &lt;user&gt;. |
| Golden.NoUserAfterBareHost | src/content/content.ts:216 | "github.com/" at the end of the URL, or followed by '/', gives no user. |
| Duplicator.HighlightDuplicating | content.js:96-124 | content.js skips a node exactly when `match` finds nothing in it. |
| Duplicator.DupLoop | content.js:106-121 | content.js's loop appends at most one span per match, and none after the last part. |
| Duplicator.DuplicatingFacts | content.js:100-121 | content.js makes one span per match, holding the matches in order and numbered consecutively. The node's text grows by one term length per match, so it never keeps its text. |
| Duplicator.FixedKeepsSpans | content.js:106-121 | The corrected highlighter has the same spans and numbering as content.js and keeps the node's text. |
| Duplicator.XfooxDuplicates | content.js:106-121 | "xfoox" searched for "foo" becomes text "x", span "foo", text "foo", text "x", which reads "xfoofoox". |
| Legacy.FirstHit | content.js:206-233 | Picks the first selector whose element has non-blank text: that selector's text is usable and every earlier one is not. None means no selector's text is usable. |
| Legacy.GoldenIdValue | content.js:204-249 | The golden ID found is never empty. |
| Legacy.ElementWins | content.js:207-233 | An element with usable text wins over the URL, and its text comes back trimmed. |
| Legacy.UrlFallback | content.js:235-241 | Without a usable element, content.js reads the user from the URL exactly as content.ts does. |
| Legacy.Listen | content.js:16-28 | content.js keeps the reply channel open for every message but answers none other than search, clear and getGoldenIdValue. Only search and clear change the page. |
| Legacy.BlankSearchClears | content.js:31-36 | A "search" message with a blank or missing term clears the page. |
| Legacy.CreateIfAbsent | content.js:257-264 | After the instance check an instance exists. |
| Legacy.InitJs | content.js:252-265 | With its guard read as intended, a run of content.js always defines the class. A run that finds the class and an instance changes nothing. A run after loading leaves an instance. From one listener per instance, it keeps exactly one. |
| Legacy.Step | content.js:1-5 | As written an injection changes nothing, because the file does not parse. With the guard as intended, an injection after loading leaves an instance. The end of loading runs every pending callback, and a defined class stays defined. |
| Legacy.Run | content.js:252-265 | Once the class is defined it stays defined, whatever the injections and loads that follow. |
| Legacy.NeverLoads | content.js:2-5 | As written, whatever the injections and loads, the window keeps no class, no instance and no listener, so the messages popup.js resends after injecting the script (popup.js:346-357) find no receiver. |
| Legacy.CallbacksSane | content.js:255-260 | The pending `DOMContentLoaded` callbacks keep the invariant "one listener per instance, none without". After at least one callback an instance exists. |
| Legacy.RunSane | content.js:252-265 | Whatever the order of injections and of the end of loading, there is never more than one listener. |
| Legacy.ListenerAfterLoad | content.js:255-260 | Injected while the document loads, content.js registers its listener only when loading ends. |
| Strings.LowerStr | src/content/content.ts:65 | Lower-casing keeps the length and lower-cases every character. |
| Strings.TrimMeaning | src/content/content.ts:61 | What `trim` leaves neither starts nor ends with white space, and all it cuts off is white space. |
| Strings.TrimEmptyIffBlank | src/content/content.ts:61 | A term trims to the empty string exactly when it is blank. |
| Strings.TrimIdempotent | popup.js:308 | Trimming a trimmed string changes nothing. |
| Strings.NatToStringRoundTrip | src/content/content.ts:167 | The decimal text of a count reads back to the count. |
| Config.EveryOption | src/utils/config.ts:93-96 | The option check fails only with the TypeError of reading a property of `null`. |
| Config.EveryOptionTrue | src/utils/config.ts:93-96 | The options pass exactly when every entry has string `label` and `searchValue`. |
| Config.EveryOptionThrows | src/utils/config.ts:93-96 | The check throws exactly when a `null` entry comes before any bad entry. |
| Config.ValidateConfig | src/utils/config.ts:89-98 | Validation fails only with the `null` TypeError. |
| Config.ValidateConfigMeaning | src/utils/config.ts:89-98 | A configuration is accepted exactly when it is an object whose `options` field is an array of entries with string `label` and `searchValue`. |
| Config.AnyIncludes | src/utils/config.ts:104 | `some(includes)` is true exactly when some domain occurs in the string. |
| Config.IsValidDomainForGolden | src/utils/config.ts:101-109 | A URL is a Golden Call page exactly when its hostname includes "github.com". When the URL does not parse, the whole string is checked instead. |
| Config.IsValidDomainForSearch | src/utils/config.ts:111-119 | A URL is a search page exactly when its hostname includes ".emol.com". When the URL does not parse, the whole string is checked. |
| Config.HostDecides | src/utils/config.ts:101-119 | Two parsed URLs with the same hostname get the same verdicts, whatever their paths. |
| Config.DetermineTabBasedOnDomain | src/utils/config.ts:147-163 | With switching off the tab is the default. With switching on, a GitHub URL gives Golden Call, otherwise a search-domain URL gives search, otherwise the default. The search tab is chosen over a different default only for a search-domain URL that is not a GitHub URL. |
| Config.GoldenFirst | src/utils/config.ts:147-163 | With switching on, a GitHub URL opens Golden Call even when it also matches the search domain. With switching off, every URL gives the default. |
| Config.GetTabConfiguration | src/utils/config.ts:121-129 | A stored tab configuration is used as it is; with none, or a failed load, the default (Golden Call, switching on) is used. |
| Config.DetermineActiveTab | src/utils/config.ts:165-179 | The result is the configured default, Golden Call or the search tab. Without an active-tab URL, or with an empty one, it is the default. With a non-empty URL it is the domain decision under the stored configuration, or under the defaults when none is stored. The search tab replaces another default only with switching on, on the search domain, off GitHub. |
| Config.StoredTabConfigDecides | src/utils/config.ts:121-179 | A stored configuration is obeyed: with switching off the popup opens on its default tab whatever the URL, and with switching on a GitHub page opens Golden Call. |
| Config.FreshInstallTabs | src/utils/config.ts:165-179 | Without a stored configuration the popup never opens on the configuration tab. It opens on the search tab only for a search-domain URL that is not a GitHub URL. |
| Config.SearchNeedsSubdomain | src/utils/config.ts:111-119 | The bare host "emol.com" is not a search page, while "www.emol.com" is. |
| Popup.IsValidDomainForGolden | popup.js:726-729 | A URL is a Golden Call page exactly when it is non-empty and includes "github.com/javierhbr". |
| Popup.IsValidDomainForSearch | popup.js:731-734 | A URL is a search page exactly when it is non-empty and includes ".emol.com". |
| Popup.CanAccessTab | popup.js:538-556 | A tab is accessible exactly when its URL is non-empty, starts with none of the five browser-internal protocols, and does not include the extension-store address. |
| Popup.AnyStartsWith | popup.js:546 | `some(startsWith)` is true exactly when some prefix starts the string. |
| Popup.GoldenUrlIncludesHost | popup.js:726-729 | Every URL the popup takes for a Golden Call page also includes "github.com", the string src/utils/config.ts looks for. |
| Popup.OtherUserDiffers | popup.js:737-754 | The converse fails. src/utils/config.ts opens Golden Call on https://github.com/octocat, while popup.js keeps its current tab there. |
| Popup.DomainCheckIsNotAccessCheck | popup.js:396-419 | A browser page whose address includes ".emol.com" passes the domain check and is still refused by the access check. |
| Popup.ToChoice | popup.js:52-55 | A valid configuration entry becomes the option with its `label` and `searchValue`. |
| Popup.SetupOptions | popup.js:30-66 | The options are never empty. Without a stored value the six defaults are used, and also when the stored array holds a `null` entry, whose `label` read throws into the catch. A non-empty stored array that popup.js's validator accepts becomes the options entry by entry, each with its `label` and `searchValue`. |
| Popup.SavedConfigReloads | popup.js:30-66 | A non-empty configuration the file loader accepted and saved comes back unchanged when the popup is opened again: `setupOptions` yields exactly the options the loader showed. |
| Popup.EmptyConfigNotReloaded | popup.js:47-56 | The exception: an empty array is accepted by the loader and shows no options, yet the next popup shows the six defaults. |
| Popup.Start | popup.js:30-66 | The opening picker shows all its options, which are never empty. Nothing is marked or chosen, and the list is closed. |
| Popup.Filter | popup.js:111-114 | Filtering never adds options. |
| Popup.FilterMeaning | popup.js:111-114 | An option is kept exactly when it is one of the options and its lower-cased label, or its non-empty lower-cased search value, includes the query. |
| Popup.FilterAppend | popup.js:111-114 | Filtering distributes over concatenation, so it keeps the options' order. |
| Popup.FilterEmptyQuery | popup.js:111-114 | An emptied search field shows every option. |
| Popup.FilterIdempotent | popup.js:111-114 | Filtering again with the same query changes nothing. |
| Popup.OnInputAsWritten | popup.js:107-120 | After typing, the list is open and shows exactly the options whose lower-cased label, or non-empty lower-cased search value, includes the lower-cased text. The mark is dropped to -1. The earlier choice is kept, so an option chosen before typing is still what a search looks for. |
| Popup.OnInput | popup.js:107-120 | The corrected `onInput` shows the same options and drops the mark to -1. A search after typing looks for the trimmed typed text. |
| Popup.OnInputIgnoresCase | popup.js:109 | The typed text and its lower-cased form filter alike. |
| Popup.Select | popup.js:182-192 | After choosing an option, a search looks for its search value, or for its trimmed label when the value is empty. The label is in the field and the list is closed. The options are kept, and a mark in range stays in range. |
| Popup.OnKeydown | popup.js:122-153 | A key throws exactly when it is Enter, the list is open, and the mark lies past the end of the filtered options; the error is the `undefined` TypeError. On a closed list ArrowDown and Enter only open it. On an open list, Enter with nothing marked changes nothing. |
| Popup.KeydownKeepsInRange | popup.js:132-152 | From a mark in range (-1 to the last option), every key succeeds and leaves the mark in range. |
| Popup.EnterChooses | popup.js:143-148 | On an open list, Enter on a marked option chooses exactly that option. |
| Popup.ArrowsUndo | popup.js:133-142 | ArrowDown moves the mark down by one, and ArrowUp then gives back the same picker. |
| Popup.ArrowsClamp | popup.js:133-142 | On an open list, ArrowDown on the last option and ArrowUp with nothing marked leave the picker unchanged. |
| Popup.InputKeepsInRange | popup.js:116 | Typing leaves the mark in range. |
| Popup.SearchTerm | popup.js:388 | There is no search term exactly when nothing is chosen and the field is blank. A chosen value wins. Otherwise the term is the typed text with only surrounding white space cut off, so it neither starts nor ends with white space. |
| Popup.TypedTextIgnored | popup.js:107-120 | As written, after choosing an option and then typing, the search is still for the chosen option's value, whatever was typed. |
| Popup.TypedTextSearched | popup.js:107-120 | With the corrected `onInput`, the search term after typing is the trimmed typed text. |
| Popup.SearchButtonDisabled | popup.js:221-232 | On the Golden Call tab the button is left alone. Elsewhere it is disabled exactly when nothing is chosen and the field is blank. |
| Popup.SearchButtonAgrees | popup.js:221-232 | The search button is disabled exactly when pressing it would be refused for lack of a term. |
| Popup.GoldenButtonDisabled | popup.js:299-303 | The Golden Call button is disabled exactly when its field is blank. |
| Popup.ValidateConfig | popup.js:633-644 | Validation fails only with the TypeError of reading a property of a `null` entry. |
| Popup.ValidateConfigMeaning | popup.js:633-644 | A configuration file is accepted exactly when it is an array of entries with string `label` and `searchValue`. |
| Popup.ValidatorsDisagree | popup.js:633-644 | No configuration passes both popup.js's validator and the one in src/utils/config.ts. |
| Popup.LoadOptionsAsWritten | popup.js:601-614 | Loading shows all the new options and leaves no search term. It keeps the mark, so the picker stays in range exactly when the old mark still points into the new options. |
| Popup.LoadOptions | popup.js:601-614 | The corrected load drops the mark to -1, so the picker is in range whatever is loaded. |
| Popup.StaleMarkThrows | popup.js:601-614 | A mark on the third of three options survives loading a one-option configuration. Enter on the re-opened list then throws. |
| Popup.LoadOptionsKeepsInRange | popup.js:601-614 | With the mark dropped, the mark is in range after any load, and Enter never throws. |
| Popup.HandleConfigFile | popup.js:582-631 | A file is loaded exactly when it validates and is saved. Then all the new options are shown, no search term is left, and the mark stays where it was. Otherwise the error is the `null` TypeError, the invalid-format message or the save failure. |
| Popup.HandleConfigFileFixed | popup.js:600-619 | The corrected loader succeeds and fails on the same files, and after a successful load the mark is dropped, so the picker is in range. |
| Popup.LoadedOptions | popup.js:601-604 | A loaded configuration's options are its entries' labels and search values, in order. |
| Popup.ClearStoredConfig | popup.js:699-723 | Once the stored configuration is removed, the six defaults are shown in an opened list with no search term, and the mark stays where it was. When removal fails, nothing changes. |
| Popup.ClearStoredConfigFixed | popup.js:699-715 | The corrected reset is the same reset with the mark dropped. |
| Popup.ClearRestartsPicker | popup.js:699-715 | After the corrected reset the picker is exactly the one a fresh popup starts with, opened. As written it differs from that only by keeping the old mark. |
| Popup.ClearLeavesStaleMark | popup.js:699-715 | As written, a mark on the ninth of ten options survives the reset to the six defaults, and Enter on the opened list then throws. |
| Popup.ClearKeepsInRange | popup.js:699-715 | With the corrected reset, a mark in range stays in range, and Enter never throws. |
| Popup.PlanSearch | popup.js:385-463 | The search is refused for lack of a term exactly when the term is empty. It sends exactly "clear" then "search" with the term exactly when there is a term and the tab is known, on the search domain and accessible. |
| Popup.PlanGolden | popup.js:305-383 | Golden Call is refused exactly when the field is blank. It sends "clear" then "search" with the trimmed field exactly when the tab is known, on the Golden Call domain and accessible. |
| Popup.PlanClear | popup.js:465-506 | "clear" is sent exactly when the tab is known and accessible. |
| Popup.SearchPlanDelivered | popup.js:421-449 | Every message the popup sends is one content.ts knows. Delivered in order to content.ts, they leave the page cleared and then searched for the term. |
| Popup.SearchPlanDeliveredJs | popup.js:421-449 | Delivered in order to the plain content.js, the messages leave the page cleared and then searched for the term by content.js's highlighter. |
| Popup.GoldenPlanDeliveredJs | popup.js:308-369 | Delivered to the plain content.js, a Golden Call request clears the page and searches it for the trimmed id, which is never blank. |
| Popup.GoldenTermNotBlank | popup.js:308-369 | The Golden Call search term is never blank, so the page is searched, not only cleared. |
| Popup.DetermineActiveTab | popup.js:737-754 | A Golden Call URL gives Golden Call. Otherwise a search-domain URL gives search, and any other URL keeps the current tab. Without a URL, or with an empty one, the tab also stays the current one. |
| Popup.DomainOverridesCurrent | popup.js:737-751 | A URL on either domain decides the tab whatever tab was showing. On neither domain the showing tab stays. |
| Popup.DetermineActiveTabIdempotent | popup.js:737-754 | Determining the tab twice gives the same tab. |
| Popup.AutoPopulate | popup.js:757-839 | The Golden Call field changes only when no run is in progress and the tab is an accessible Golden Call page. |
| Popup.AutoPopulateAgrees | popup.js:785-830 | When an element has usable text, the popup fills in what content.js's golden-ID lookup answers, and the Golden Call button becomes enabled. Otherwise the field is kept: the popup never falls back to the URL. |

## Left out
- Popup.SearchPlanDelivered: takes content.ts as the receiver. popup.js:561-564 injects the file `content.js`, which is content.ts in the built extension (vite.config.ts:46-49) and the plain script in the repository root; `Popup.SearchPlanDeliveredJs` states the plain script's half, for its corrected start-up, since as written it never loads.
- The browser APIs (`chrome.runtime`, `chrome.tabs`, `chrome.storage`, `chrome.scripting`) are not modelled. What they return is a parameter: the active tab's URL (None when the query fails), the stored configuration, whether a save or a removal worked, and the text of the element each CSS selector finds.
- Timers and UI: the 150 ms close of the drop-down, the 2-second automatic close after a reload, the 500 ms and 300 ms waits between messages, and the 1.5-second `window.close()` are left out. Closing the drop-down is taken as immediate.
- The counter's timer is modelled by `Engine.Expire` as an event on the session; when it fires is not modelled.
- Scrolling (`scrollIntoView`) and styling (colours, opacity values beyond the dimmed flag, CSS injection) are visual only.
- Parsing is taken as given: `JSON.parse` of the configuration file (the parsed value is a parameter) and `new URL(...)` (the hostname is given, None when parsing throws).
- Strings.LowerStr: folds only ASCII letters, because Unicode case mapping is not modelled; the walker's filter and the regex's `i` flag agree under this folding.
- Dom.Normalize: merges text nodes within one slot only, while the browser's `normalize()` merges across the whole parent. Spans and text outside the slot the engine created are not touched by the model.
- Matches that span two text nodes are not modelled; each text node is searched on its own, as in the code.
- Content.Dispatch: leaves out the "Content script error" branch of the catch at content.ts:50-54, because no modelled operation throws.
- Popup.PlanSearch: leaves out the connection-failure path that injects the content script before resending "clear". The messages sent are the same, and the injection itself is a browser call.
- Popup.PlanSearch: also assumes the two `chrome.tabs.query` calls return the same tab.
- Popup.PlanGolden: has the same two simplifications as `Popup.PlanSearch`.
- Popup.AutoPopulate: models the executed page function by the texts its selectors find. A script-execution failure is modelled as no usable element.
- Status messages, `renderOptions`, `updateHighlight`, `switchTab`, `showStatus`, `setButtonLoading` and the configuration-status label are display only.
- The React popup (src/popup), the background scripts and the services are not part of this model.
- Popup.SetupOptions: a stored entry that is neither `null` nor an object with string fields becomes an option with empty strings, where the browser keeps `undefined` and a later `onInput` would throw. Only the file loader writes the stored value, and it stores validated arrays only.
- Legacy.Listen: does not model content.js's handling of a "search" message whose `searchTerm` is not a string. A missing term is the empty string.

## Findings

| source | as written | input that shows it | evidently intended | confidence | as-written member | corrected member |
|---|---|---|---|---|---|---|
| src/content/content.ts:120 | `regex.test` on the shared global regex carries `lastIndex` from one part to the next, so a match directly after a highlighted match is tested from that match's end, fails, and stays plain text | page text "aa", term "a": one span "a" then a text node "a" | every match of the split becomes its own span, numbered consecutively | not executed; high | Highlighter.AdjacentMatchesOneSpan | Highlighter.HighlightTextFixed |
| content.js:106-121 | every split part is appended as text, including the captured matches at the odd positions, and a span holding the same match is appended after it | paragraph "xfoox", term "foo": text "x", span "foo", text "foo", text "x"; clearing then leaves "xfoofoox" | a span in place of each match's text, so clearing restores the page | not executed; high | Engine.JsClearKeepsDuplicate | Duplicator.FixedKeepsSpans |
| popup.js:601-614 | loading a configuration replaces and re-opens the options without resetting `highlightedIndex` | mark on the 3rd of 3 options, load a one-option file, press Enter: `selectOption(undefined)` throws | drop the mark to -1, as `onInput` does | not executed; high | Popup.StaleMarkThrows | Popup.LoadOptionsKeepsInRange |
| popup.js:699-715 | `clearStoredConfig` restores the six defaults and re-opens the list without resetting `highlightedIndex` | mark on the 9th of 10 options, reset the configuration, press Enter: `selectOption(undefined)` throws | drop the mark to -1, as `onInput` does | not executed; high | Popup.ClearLeavesStaleMark | Popup.ClearKeepsInRange |
| content.js:2-5 | the injection guard is a `return` at the top level of a classic script, a syntax error, so the file never runs and no listener is registered | inject content.js into any page, as popup.js:346-357 does, then send "clear": nobody answers | the guard skips only a repeated initialisation, as content.ts's guard does | not executed; high | Legacy.NeverLoads | Legacy.InitJs |
| popup.js:107-120 | typing refilters but keeps `selectedValue`, which `performSearch` prefers over the typed text | choose "keyValuePairs", then type "envMode" and search: the term is "New KVP log" | typing drops the earlier choice, so the typed text is searched | not executed; medium | Popup.TypedTextIgnored | Popup.TypedTextSearched |
