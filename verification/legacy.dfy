/** The message listener, the golden-ID lookup and the start-up of content.js, the plain
    JavaScript version of the content script.

    Its listener answers "search", "clear" and "getGoldenIdValue" and stays silent on anything
    else, and it returns `true` for every message, which tells the browser to keep the reply
    channel open. Its golden-ID lookup first reads the page through five CSS selectors and only
    then falls back to the URL. */
module Legacy {
  import opened Wrappers
  import opened Strings
  import opened Registry
  import opened Engine
  import opened Golden
  import opened Content

  /** The object passed to `sendResponse`. */
  datatype Reply =
    | Succeeded                           // { success: true }
    | GoldenValue(value: Option<string>)  // { goldenIdValue }

  /** The page after the message, the reply sent, if any, and the listener's return value. */
  datatype Heard = Heard(state: State, reply: Option<Reply>, keepsOpen: bool)

  /** The CSS selectors tried, in order, before the URL. */
  const Selectors: seq<string> := [
    ".p-nickname.vcard-username.d-block",
    "[data-hovercard-type=\"user\"] .p-nickname",
    ".vcard-username",
    ".p-nickname",
    "[itemprop=\"additionalName\"]"
  ]

  /** The text of an element found by a selector is usable when it is not blank. */
  predicate Usable(hit: Option<string>) {
    hit.Some? && Trim(hit.value) != []
  }

  /** The first selector whose element has usable text; `hits[i]` is the `textContent` of the
      first element `Selectors[i]` finds, None when it finds none. */
  function FirstHit(hits: seq<Option<string>>): (r: Option<nat>)
    ensures r.Some? ==> r.value < |hits| && Usable(hits[r.value])
    ensures r.Some? ==> forall k :: 0 <= k < r.value ==> !Usable(hits[k])
    ensures r.None? ==> forall k :: 0 <= k < |hits| ==> !Usable(hits[k])
  {
    if hits == [] then None
    else if Usable(hits[0]) then Some(0)
    else
      match FirstHit(hits[1..])
      case Some(k) => Some(k + 1)
      case None => None
  }

  /** `getGoldenIdValue()` of content.js: the trimmed text of the first usable element, or
      else the user name in a GitHub URL. */
  function GoldenIdValue(hits: seq<Option<string>>, url: string): (r: Option<string>)
    ensures r.Some? ==> r.value != []
  {
    match FirstHit(hits)
    case Some(k) => Some(Trim(hits[k].value))
    case None => GithubUser(url)
  }

  /** An element with usable text wins over the URL, and its text comes back trimmed. */
  lemma ElementWins(hits: seq<Option<string>>, url: string, k: nat)
    requires k < |hits| && Usable(hits[k])
    requires forall i :: 0 <= i < k ==> !Usable(hits[i])
    ensures GoldenIdValue(hits, url) == Some(Trim(hits[k].value))
    ensures Trim(GoldenIdValue(hits, url).value) == GoldenIdValue(hits, url).value
  {
    TrimIdempotent(hits[k].value);
  }

  /** Without a usable element content.js reads the URL just as content.ts does. */
  lemma UrlFallback(hits: seq<Option<string>>, url: string)
    requires forall k :: 0 <= k < |hits| ==> !Usable(hits[k])
    ensures GoldenIdValue(hits, url) == GithubUser(url)
  {
  }

  /** The listener of content.js. A "search" message searches with whatever term it carries;
      an empty or blank one only clears. */
  function Listen(st: State, url: string, hits: seq<Option<string>>, req: Request): (r: Heard)
    ensures r.keepsOpen
    ensures r.reply.None? <==> req.action != "search" && req.action != "clear" && req.action != "getGoldenIdValue"
    ensures r.state != st ==> req.action == "search" || req.action == "clear"
    ensures r.reply.Some? && r.reply.value.GoldenValue? && r.reply.value.value.Some? ==> r.reply.value.value.value != []
  {
    if req.action == "search" then Heard(Search(Js, AsWritten, st, req.searchTerm), Some(Succeeded), true)
    else if req.action == "clear" then Heard(Clear(st), Some(Succeeded), true)
    else if req.action == "getGoldenIdValue" then Heard(st, Some(GoldenValue(GoldenIdValue(hits, url))), true)
    else Heard(st, None, true)
  }

  /** A "search" message whose term is missing or blank clears the page and highlights
      nothing. */
  lemma BlankSearchClears(st: State, url: string, hits: seq<Option<string>>, term: string)
    requires IsBlank(term)
    ensures Listen(st, url, hits, Request("search", term, "")).state == Clear(st)
  {
    SearchBlank(Js, AsWritten, st, term);
  }

  // ---------------------------------------------------------------------------------------
  // Start-up
  // ---------------------------------------------------------------------------------------

  /** The window as content.js sees it, with the number of `DOMContentLoaded` callbacks the
      script has registered and that have not run yet. */
  datatype JsWindow = JsWindow(classDefined: bool, instance: bool, listeners: nat, pending: nat)

  const Blank: JsWindow := JsWindow(false, false, 0, 0)

  /** What happens to the window: the script is injected, while the document is still
      loading or after, or the document finishes loading. */
  datatype Event = Inject(loading: bool) | ContentLoaded

  /** `if (!window.contentSearcherInstance) window.contentSearcherInstance = new ContentSearcher()`. */
  function CreateIfAbsent(w: JsWindow): (r: JsWindow)
    ensures r.instance
  {
    if w.instance then w else w.(instance := true, listeners := w.listeners + 1)
  }

  /** One run of content.js with its guard read as intended. The guard ends the run when the
      class and an instance are both there; otherwise the class is defined and the instance
      is created now, or, while the document is loading, by a callback registered for
      `DOMContentLoaded`. */
  function InitJs(w: JsWindow, loading: bool): (r: JsWindow)
    ensures r.classDefined
    ensures w.classDefined && w.instance ==> r == w
    ensures !loading ==> r.instance
    ensures Sane(w) ==> Sane(r) && (!loading ==> r.listeners == 1)
  {
    if w.classDefined && w.instance then w
    else
      var d := w.(classDefined := true);
      if loading then d.(pending := d.pending + 1) else CreateIfAbsent(d)
  }

  /** The pending callbacks run one after the other. */
  function RunCallbacks(w: JsWindow, n: nat): (r: JsWindow)
    ensures r.classDefined == w.classDefined
    decreases n
  {
    if n == 0 then w else RunCallbacks(CreateIfAbsent(w), n - 1)
  }

  /** What one event does. As written, content.js does not load at all: its guard is a
      `return` at the top level of a classic script, which is a syntax error, so an injection
      runs nothing. With `Corrected` an injection runs `InitJs`. */
  function Step(w: JsWindow, e: Event, v: Variant): (r: JsWindow)
    ensures w.classDefined ==> r.classDefined
    ensures e.ContentLoaded? ==> r.pending == 0
    ensures e.Inject? && v == AsWritten ==> r == w
    ensures e == Inject(false) && v == Corrected ==> r.instance
  {
    match e
    case Inject(loading) => if v == AsWritten then w else InitJs(w, loading)
    case ContentLoaded => RunCallbacks(w, w.pending).(pending := 0)
  }

  function Run(w: JsWindow, events: seq<Event>, v: Variant): (r: JsWindow)
    ensures w.classDefined ==> r.classDefined
    decreases |events|
  {
    if events == [] then w else Run(Step(w, events[0], v), events[1..], v)
  }

  /** One listener per instance, and none without one. */
  predicate Sane(w: JsWindow) {
    w.listeners == if w.instance then 1 else 0
  }

  lemma {:induction false} CallbacksSane(w: JsWindow, n: nat)
    requires Sane(w)
    ensures Sane(RunCallbacks(w, n))
    ensures n > 0 ==> RunCallbacks(w, n).instance
    ensures n == 0 ==> RunCallbacks(w, n) == w
    decreases n
  {
    if n > 0 {
      CallbacksSane(CreateIfAbsent(w), n - 1);
    }
  }

  /** Whatever the order of injections and of the end of loading, there is never more than one
      listener: the guard and the instance check keep every later run from registering one. */
  lemma {:induction false} RunSane(w: JsWindow, events: seq<Event>, v: Variant)
    requires Sane(w)
    ensures Sane(Run(w, events, v))
    ensures Run(w, events, v).listeners <= 1
    decreases |events|
  {
    if events != [] {
      if events[0] == ContentLoaded {
        CallbacksSane(w, w.pending);
      }
      RunSane(Step(w, events[0], v), events[1..], v);
    }
  }

  /** As written, content.js never takes effect: whatever the injections and loads, the
      window keeps no class, no instance and no listener, so the messages popup.js resends
      after injecting the script have nobody to answer them. */
  lemma {:induction false} NeverLoads(events: seq<Event>)
    ensures Run(Blank, events, AsWritten) == Blank
    ensures Run(Blank, events, AsWritten).listeners == 0
    decreases |events|
  {
    if events != [] {
      assert Step(Blank, events[0], AsWritten) == Blank;
      NeverLoads(events[1..]);
    }
  }

  /** Injected while the document loads, the script registers its listener only once loading
      ends. */
  lemma ListenerAfterLoad()
    ensures Run(Blank, [Inject(true)], Corrected).listeners == 0
    ensures Run(Blank, [Inject(true), ContentLoaded], Corrected).listeners == 1
  {
    var w := Step(Blank, Inject(true), Corrected);
    assert w == JsWindow(true, false, 0, 1);
    assert Step(w, ContentLoaded, Corrected) == JsWindow(true, true, 1, 0);
    assert [Inject(true), ContentLoaded][1..] == [ContentLoaded];
  }
}
