/** The message listener and the injection guard of src/content/content.ts.

    The listener answers every message synchronously: "ping" with a ready status, "search" with
    a non-empty `searchTerm` by searching, "clear" by clearing, "getGolden" by acknowledging a
    given golden ID or by reading one from the page URL; anything else, a "search" without a
    term included, is an unknown action. */
module Content {
  import opened Wrappers
  import opened Strings
  import opened Registry
  import opened Engine
  import opened Golden
  import opened Dom

  /** A message from the popup. A field the message lacks is the empty string: the listener
      only tests fields for truthiness, and a missing field and an empty one are both falsy. */
  datatype Request = Request(action: string, searchTerm: string, goldenId: string)

  /** The object passed to `sendResponse`. */
  datatype Response =
    | Ready                     // { success: true, status: 'ready' }
    | Done                      // { success: true }
    | GoldenReceived            // { success: true, message: 'Golden ID received' }
    | GoldenFound(id: string)   // { success: true, goldenId }
    | Failed(error: string)     // { success: false, error }

  /** The page after the message and the response sent for it. */
  datatype Handled = Handled(state: State, response: Response)

  const UnknownAction: string := "Unknown action"
  const GoldenNotFound: string := "Golden ID not found"

  /** The listener of content.ts on the page state `st` at location `url`. */
  function Dispatch(st: State, url: string, req: Request): (r: Handled)
    ensures r.state != st ==> req.action == "search" || req.action == "clear"
    ensures r.response.Failed? ==> r.state == st
    ensures r.response.Failed? ==> r.response.error == UnknownAction || r.response.error == GoldenNotFound
    ensures r.response.GoldenFound? ==> r.response.id != [] && forall k :: 0 <= k < |r.response.id| ==> r.response.id[k] != '/'
  {
    if req.action == "ping" then Handled(st, Ready)
    else if req.action == "search" && req.searchTerm != [] then Handled(Search(Ts, AsWritten, st, req.searchTerm), Done)
    else if req.action == "clear" then Handled(Clear(st), Done)
    else if req.action == "getGolden" then
      if req.goldenId != [] then Handled(st, GoldenReceived)
      else
        match GithubUser(url)
        case Some(id) => Handled(st, GoldenFound(id))
        case None => Handled(st, Failed(GoldenNotFound))
    else Handled(st, Failed(UnknownAction))
  }

  /** The actions the listener knows. */
  predicate Known(req: Request) {
    || req.action == "ping" || req.action == "clear" || req.action == "getGolden"
    || (req.action == "search" && req.searchTerm != [])
  }

  /** The listener reports an unknown action exactly for the messages it does not know; a
      "search" message without a term is one of them and does not even clear the page. */
  lemma UnknownIffNotKnown(st: State, url: string, req: Request)
    ensures Dispatch(st, url, req).response == Failed(UnknownAction) <==> !Known(req)
    ensures !Known(req) ==> Dispatch(st, url, req).state == st
  {
  }

  /** Every message keeps the session in charge of the page's spans. */
  lemma DispatchKeepsOwned(st: State, url: string, req: Request)
    requires Owned(st.session, st.page)
    ensures Owned(Dispatch(st, url, req).state.session, Dispatch(st, url, req).state.page)
  {
    if req.action == "search" && req.searchTerm != [] {
      SearchRegistry(Ts, AsWritten, st, req.searchTerm);
    } else if req.action == "clear" {
      ClearOwned(st);
    }
  }

  /** A "search" message followed by a "clear" message gives a plain page back unchanged. */
  lemma SearchThenClear(st: State, url: string, term: string)
    requires Plain(st.page) && term != []
    ensures Dispatch(Dispatch(st, url, Request("search", term, "")).state, url, Request("clear", "", "")).state.page
            == st.page
  {
    SearchRoundTrip(Ts, AsWritten, st, term);
  }

  /** On a GitHub profile page "getGolden" without an ID answers with the profile's user. */
  lemma GoldenFromProfile(st: State, user: string, rest: string)
    requires user != [] && forall k :: 0 <= k < |user| ==> user[k] != '/'
    requires rest == [] || rest[0] == '/'
    ensures Dispatch(st, "https://" + Host + user + rest, Request("getGolden", "", "")).response == GoldenFound(user)
  {
    ProfileUrlGivesUser(user, rest);
  }

  /** content.ts's filter checks tags only, so a text node under an element of the counter
      class that it does not own (one content.js made, say) is searched by content.ts and
      skipped by content.js. Its own counter is removed by the clear before the walk. */
  lemma CounterClassSearched(p: Parent, text: string, term: string)
    requires p.tag !in ExcludedTags && CounterClass in p.classes
    requires Contains(LowerStr(text), LowerStr(term))
    ensures Accepts(Ts, Some(p), text, term)
    ensures !Accepts(Js, Some(p), text, term)
  {
  }

  // ---------------------------------------------------------------------------------------
  // The injection guard
  // ---------------------------------------------------------------------------------------

  /** What the page's window holds: whether `window.ContentSearcher` is defined, whether
      `window.contentSearcherInstance` is set, and how many message listeners the instances
      have registered (each constructor registers one). */
  datatype Window = Window(classDefined: bool, instance: bool, listeners: nat)

  const Untouched: Window := Window(false, false, 0)

  /** `initializeContentScript()`, run each time the script is injected: when both the class
      and an instance are there it does nothing, and otherwise it defines the class and
      creates an instance, which registers a listener. */
  function InitTs(w: Window): (r: Window)
    ensures r.classDefined && r.instance
    ensures w.classDefined && w.instance ==> r == w
    ensures !(w.classDefined && w.instance) ==> r.listeners == w.listeners + 1
  {
    if w.classDefined && w.instance then w else Window(true, true, w.listeners + 1)
  }

  /** The window after `n` injections. */
  function InjectTs(w: Window, n: nat): Window
    decreases n
  {
    if n == 0 then w else InjectTs(InitTs(w), n - 1)
  }

  /** A second injection changes nothing. */
  lemma InitTsIdempotent(w: Window)
    ensures InitTs(InitTs(w)) == InitTs(w)
  {
  }

  /** However often the script is injected into a page, exactly one listener is registered. */
  lemma {:induction false} OneListener(n: nat)
    requires n >= 1
    ensures InjectTs(Untouched, n).listeners == 1
  {
    InjectedStays(InitTs(Untouched), n - 1);
  }

  lemma {:induction false} InjectedStays(w: Window, n: nat)
    requires w.classDefined && w.instance
    ensures InjectTs(w, n) == w
    decreases n
  {
    if n > 0 {
      InjectedStays(InitTs(w), n - 1);
    }
  }
}
