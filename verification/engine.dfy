/** `performSearch` of both content scripts: the tree walk that collects the text nodes to
    highlight, the highlighting of each collected node, the current-match marking, the status
    counter and the counter's timer. src/content/content.ts and content.js differ in what the
    walker rejects, in how a node is highlighted and in what the counter reports; `Script`
    selects one, and `Variant` selects the highlighter as written or as corrected. */
module Engine {
  import opened Wrappers
  import opened Strings
  import opened Dom
  import opened Regex
  import opened Highlighter
  import opened Duplicator
  import opened Registry

  /** Which content script runs: src/content/content.ts or the older content.js. */
  datatype Script = Ts | Js

  /** Which highlighter a search uses: the code as written, or the corrected one. */
  datatype Variant = AsWritten | Corrected

  /** Tags whose text is never searched. */
  const ExcludedTags: seq<string> := ["SCRIPT", "STYLE", "NOSCRIPT", "IFRAME"]

  /** The class of a highlight span and of the status counter. */
  const HighlightClass: string := "content-search-highlight"
  const CounterClass: string := "content-search-counter"

  /** The parent check of the walker: content.ts rejects the excluded tags; content.js
      (`isInExcludedElement`) also rejects the extension's own highlight and counter elements. */
  predicate Excluded(script: Script, p: Parent) {
    || p.tag in ExcludedTags
    || (script == Js && (HighlightClass in p.classes || CounterClass in p.classes))
  }

  /** The walker's `acceptNode`: a text node is collected when it has a parent that is not
      excluded and its lower-cased text includes the lower-cased term. */
  predicate Accepts(script: Script, parent: Option<Parent>, text: string, term: string) {
    parent.Some? && !Excluded(script, parent.value) && Contains(LowerStr(text), LowerStr(term))
  }

  /** content.js's walker is the stricter one: every node it accepts content.ts accepts too,
      and they differ exactly on nodes under an element of the highlight or counter class. */
  lemma AcceptsCompared(parent: Option<Parent>, text: string, term: string)
    ensures Accepts(Js, parent, text, term) ==> Accepts(Ts, parent, text, term)
    ensures Accepts(Ts, parent, text, term) && !Accepts(Js, parent, text, term) <==>
              Accepts(Ts, parent, text, term) && (HighlightClass in parent.value.classes || CounterClass in parent.value.classes)
  {
  }

  /** The highlighter one script and variant run on a text node. Both scripts skip a node in
      which `match` finds nothing. */
  function HighlightWith(script: Script, v: Variant, text: string, term: string, next: nat): (r: Option<Fragment>)
    requires |term| > 0
    ensures r.None? <==> MatchAll(text, term) == []
  {
    match v
    case Corrected => HighlightTextFixed(text, term, next)
    case AsWritten => if script == Ts then HighlightText(text, term, next) else HighlightDuplicating(text, term, next)
  }

  /** The highlighters that keep the page's text: content.ts as written, and the corrected
      one. */
  predicate KeepsText(script: Script, v: Variant) {
    script == Ts || v == Corrected
  }

  /** The highlighters that make one span per match: content.js as written, and the corrected
      one. */
  predicate CountsAll(script: Script, v: Variant) {
    script == Js || v == Corrected
  }

  /** What every highlighter does to a node with matches: at least one span and at most one
      per match, numbered consecutively from `next`; one per match where `CountsAll`, and the
      text kept where `KeepsText`. */
  lemma HighlightWithFacts(script: Script, v: Variant, text: string, term: string, next: nat, f: Fragment)
    requires |term| > 0 && HighlightWith(script, v, text, term, next) == Some(f)
    ensures next < f.next <= next + |MatchAll(text, term)|
    ensures Indices(f.nodes) == Range(next, f.next - next)
    ensures CountsAll(script, v) ==> f.next == next + |MatchAll(text, term)|
    ensures KeepsText(script, v) ==> TextOf(f.nodes) == text
  {
    if v == AsWritten && script == Js {
      DuplicatingFacts(text, term, next);
    }
  }

  // ---------------------------------------------------------------------------------------
  // The walk
  // ---------------------------------------------------------------------------------------

  /** The number of matches `text.match` reports in a node the walker collects; 0 for any
      other node. */
  function NodeMatches(script: Script, parent: Option<Parent>, n: Node, term: string): nat
    requires |term| > 0
  {
    if n.Text? && Accepts(script, parent, n.s, term) then |MatchAll(n.s, term)| else 0
  }

  /** A collected node is replaced by its fragment; every other node stays. A span is one node
      here, so the text inside it is never searched: the browser would search the text of a
      span the registry does not know, but on the pages a search starts from every span is
      registered and removed by the clear first (`Content.DispatchKeepsOwned`). */
  function NodeResult(script: Script, v: Variant, parent: Option<Parent>, n: Node, term: string, next: nat): (r: Fragment)
    requires |term| > 0
    ensures next <= r.next
  {
    if n.Text? && Accepts(script, parent, n.s, term) then
      match HighlightWith(script, v, n.s, term, next)
      case Some(f) => HighlightWithFacts(script, v, n.s, term, next, f); f
      case None => Fragment([n], next)
    else Fragment([n], next)
  }

  /** The nodes of one parent, in document order, numbering spans on from `next`. */
  function HighlightNodes(script: Script, v: Variant, parent: Option<Parent>, ns: seq<Node>, term: string, next: nat): (r: Fragment)
    requires |term| > 0
    ensures next <= r.next
    decreases |ns|
  {
    if ns == [] then Fragment([], next)
    else
      var h := NodeResult(script, v, parent, ns[0], term, next);
      var rest := HighlightNodes(script, v, parent, ns[1..], term, h.next);
      Fragment(h.nodes + rest.nodes, rest.next)
  }

  function NodesMatches(script: Script, parent: Option<Parent>, ns: seq<Node>, term: string): nat
    requires |term| > 0
    decreases |ns|
  {
    if ns == [] then 0 else NodeMatches(script, parent, ns[0], term) + NodesMatches(script, parent, ns[1..], term)
  }

  /** A page after highlighting, with the next free `data-search-index`. */
  datatype Marked = Marked(page: Page, next: nat)

  /** Every collected text node of the page highlighted, in document order. */
  function HighlightPage(script: Script, v: Variant, page: Page, term: string, next: nat): (r: Marked)
    requires |term| > 0
    ensures next <= r.next
    decreases |page|
  {
    if page == [] then Marked([], next)
    else
      var h := HighlightNodes(script, v, page[0].parent, page[0].nodes, term, next);
      var rest := HighlightPage(script, v, page[1..], term, h.next);
      Marked([Slot(page[0].parent, h.nodes)] + rest.page, rest.next)
  }

  /** content.js's `matchCount`: the matches `text.match` reports over every collected node. */
  function PageMatches(script: Script, page: Page, term: string): nat
    requires |term| > 0
    decreases |page|
  {
    if page == [] then 0 else NodesMatches(script, page[0].parent, page[0].nodes, term) + PageMatches(script, page[1..], term)
  }

  /** What highlighting does to a slot: the parent stays, the text stays where the highlighter
      keeps it, and a slot that gained no span is untouched. */
  predicate Grown(keep: bool, o: Slot, n: Slot) {
    && n.parent == o.parent
    && (keep ==> TextOf(n.nodes) == TextOf(o.nodes))
    && (|Indices(n.nodes)| == |Indices(o.nodes)| ==> n == o)
  }

  /** One node: the spans it gains are numbered from `next`, as many as it has matches at
      most and exactly that many where `CountsAll`; a node gains spans exactly when the walker
      collects it. */
  lemma NodeFacts(script: Script, v: Variant, parent: Option<Parent>, n: Node, term: string, next: nat)
    requires |term| > 0
    ensures NodeResult(script, v, parent, n, term, next).next - next <= NodeMatches(script, parent, n, term)
    ensures CountsAll(script, v) ==> NodeResult(script, v, parent, n, term, next).next - next == NodeMatches(script, parent, n, term)
    ensures NodeResult(script, v, parent, n, term, next).next == next <==> NodeMatches(script, parent, n, term) == 0
    ensures NodeResult(script, v, parent, n, term, next).next == next ==> NodeResult(script, v, parent, n, term, next).nodes == [n]
    ensures Indices(NodeResult(script, v, parent, n, term, next).nodes)
            == Indices([n]) + Range(next, NodeResult(script, v, parent, n, term, next).next - next)
    ensures KeepsText(script, v) ==> TextOf(NodeResult(script, v, parent, n, term, next).nodes) == TextOf([n])
  {
    var r := NodeResult(script, v, parent, n, term, next);
    assert TextOf([n]) == n.s;
    if n.Text? && Accepts(script, parent, n.s, term) {
      MatchAllEmptyIffNotContains(n.s, term);
      var f := HighlightWith(script, v, n.s, term, next).value;
      HighlightWithFacts(script, v, n.s, term, next, f);
      assert Indices([n]) == [];
    } else {
      assert Range(next, 0) == [];
    }
  }

  /** The nodes of one parent: every gained span is numbered consecutively after the old
      ones, and the count relations of `NodeFacts` add up. */
  lemma {:induction false} NodesFacts(script: Script, v: Variant, parent: Option<Parent>, ns: seq<Node>, term: string, next: nat)
    requires |term| > 0
    ensures HighlightNodes(script, v, parent, ns, term, next).next - next <= NodesMatches(script, parent, ns, term)
    ensures CountsAll(script, v) ==>
              HighlightNodes(script, v, parent, ns, term, next).next - next == NodesMatches(script, parent, ns, term)
    ensures HighlightNodes(script, v, parent, ns, term, next).next == next <==> NodesMatches(script, parent, ns, term) == 0
    ensures HighlightNodes(script, v, parent, ns, term, next).next == next ==> HighlightNodes(script, v, parent, ns, term, next).nodes == ns
    ensures |Indices(HighlightNodes(script, v, parent, ns, term, next).nodes)|
            == |Indices(ns)| + (HighlightNodes(script, v, parent, ns, term, next).next - next)
    ensures KeepsText(script, v) ==> TextOf(HighlightNodes(script, v, parent, ns, term, next).nodes) == TextOf(ns)
    decreases |ns|
  {
    if ns != [] {
      var h := NodeResult(script, v, parent, ns[0], term, next);
      var rest := HighlightNodes(script, v, parent, ns[1..], term, h.next);
      NodeFacts(script, v, parent, ns[0], term, next);
      NodesFacts(script, v, parent, ns[1..], term, h.next);
      NodesStep(ns, h, rest);
    }
  }

  /** How the pieces of one step of the walk add up. */
  lemma NodesStep(ns: seq<Node>, h: Fragment, rest: Fragment)
    requires ns != []
    ensures TextOf(h.nodes + rest.nodes) == TextOf(h.nodes) + TextOf(rest.nodes)
    ensures Indices(h.nodes + rest.nodes) == Indices(h.nodes) + Indices(rest.nodes)
    ensures TextOf(ns) == TextOf([ns[0]]) + TextOf(ns[1..])
    ensures Indices(ns) == Indices([ns[0]]) + Indices(ns[1..])
    ensures h.nodes == [ns[0]] && rest.nodes == ns[1..] ==> h.nodes + rest.nodes == ns
  {
    TextOfAppend(h.nodes, rest.nodes);
    IndicesAppend(h.nodes, rest.nodes);
    assert ns == [ns[0]] + ns[1..];
    TextOfAppend([ns[0]], ns[1..]);
    IndicesAppend([ns[0]], ns[1..]);
  }

  /** The spans of `f` are numbered consecutively from `next` up to `f.next`. */
  predicate NumberedFrom(f: Fragment, next: nat) {
    next <= f.next && Indices(f.nodes) == Range(next, f.next - next)
  }

  /** On spanless nodes the spans are exactly the new ones, numbered from `next`. */
  lemma {:induction false} NodesNumbers(script: Script, v: Variant, parent: Option<Parent>, ns: seq<Node>, term: string, next: nat)
    requires |term| > 0 && Indices(ns) == []
    ensures NumberedFrom(HighlightNodes(script, v, parent, ns, term, next), next)
    decreases |ns|
  {
    if ns != [] {
      var h := NodeResult(script, v, parent, ns[0], term, next);
      var rest := HighlightNodes(script, v, parent, ns[1..], term, h.next);
      assert Indices([ns[0]]) == [] && Indices(ns[1..]) == [] by {
        assert ns == [ns[0]] + ns[1..];
        IndicesAppend([ns[0]], ns[1..]);
      }
      NodeNumbered(script, v, parent, ns[0], term, next);
      NodesNumbers(script, v, parent, ns[1..], term, h.next);
      NumbersJoin(h.nodes, rest.nodes, next, h.next, rest.next);
      NodesCons(script, v, parent, ns, term, next, h, rest);
      assert NumberedFrom(Fragment(h.nodes + rest.nodes, rest.next), next);
    } else {
      assert Range(next, 0) == [];
    }
  }

  /** One step of the walk over the nodes of a slot. */
  lemma NodesCons(script: Script, v: Variant, parent: Option<Parent>, ns: seq<Node>, term: string, next: nat, h: Fragment, rest: Fragment)
    requires |term| > 0 && ns != []
    requires h == NodeResult(script, v, parent, ns[0], term, next)
    requires rest == HighlightNodes(script, v, parent, ns[1..], term, h.next)
    ensures HighlightNodes(script, v, parent, ns, term, next) == Fragment(h.nodes + rest.nodes, rest.next)
  {
  }

  /** A spanless node comes out with exactly its new spans, numbered from `next`. */
  lemma NodeNumbered(script: Script, v: Variant, parent: Option<Parent>, n: Node, term: string, next: nat)
    requires |term| > 0 && Indices([n]) == []
    ensures Indices(NodeResult(script, v, parent, n, term, next).nodes)
            == Range(next, NodeResult(script, v, parent, n, term, next).next - next)
  {
    NodeFacts(script, v, parent, n, term, next);
  }

  /** Two runs numbered consecutively one after the other are numbered consecutively
      together. */
  lemma NumbersJoin(a: seq<Node>, b: seq<Node>, from: nat, mid: nat, end: nat)
    requires from <= mid <= end
    requires Indices(a) == Range(from, mid - from) && Indices(b) == Range(mid, end - mid)
    ensures Indices(a + b) == Range(from, end - from)
  {
    IndicesAppend(a, b);
  }

  /** One slot of the walk is a `Grown` version of the old one. */
  lemma SlotGrown(script: Script, v: Variant, s: Slot, term: string, next: nat)
    requires |term| > 0
    ensures Grown(KeepsText(script, v), s, Slot(s.parent, HighlightNodes(script, v, s.parent, s.nodes, term, next).nodes))
  {
    NodesFacts(script, v, s.parent, s.nodes, term, next);
  }

  /** The page: every slot grows as `Grown` says, and the count relations add up. */
  lemma {:induction false} PageFacts(script: Script, v: Variant, page: Page, term: string, next: nat)
    requires |term| > 0
    ensures |HighlightPage(script, v, page, term, next).page| == |page|
    ensures forall k :: 0 <= k < |page| ==>
              Grown(KeepsText(script, v), page[k], HighlightPage(script, v, page, term, next).page[k])
    ensures HighlightPage(script, v, page, term, next).next - next <= PageMatches(script, page, term)
    ensures CountsAll(script, v) ==>
              HighlightPage(script, v, page, term, next).next - next == PageMatches(script, page, term)
    ensures HighlightPage(script, v, page, term, next).next == next <==> PageMatches(script, page, term) == 0
    decreases |page|
  {
    if page != [] {
      var h := HighlightNodes(script, v, page[0].parent, page[0].nodes, term, next);
      var rest := HighlightPage(script, v, page[1..], term, h.next);
      var r := HighlightPage(script, v, page, term, next);
      NodesFacts(script, v, page[0].parent, page[0].nodes, term, next);
      PageFacts(script, v, page[1..], term, h.next);
      SlotGrown(script, v, page[0], term, next);
      forall k | 0 <= k < |page| ensures Grown(KeepsText(script, v), page[k], r.page[k]) {
        if k > 0 {
          assert page[k] == page[1..][k - 1] && r.page[k] == rest.page[k - 1];
        }
      }
    }
  }

  /** The spans of the page `m` are numbered consecutively from `next` up to `m.next`. */
  predicate PageNumberedFrom(m: Marked, next: nat) {
    next <= m.next && AllIndices(m.page) == Range(next, m.next - next)
  }

  /** On a page without spans the spans are exactly the new ones, numbered from `next`. */
  lemma {:induction false} PageNumbers(script: Script, v: Variant, page: Page, term: string, next: nat)
    requires |term| > 0 && AllIndices(page) == []
    ensures PageNumberedFrom(HighlightPage(script, v, page, term, next), next)
    decreases |page|
  {
    if page != [] {
      var h := HighlightNodes(script, v, page[0].parent, page[0].nodes, term, next);
      var rest := HighlightPage(script, v, page[1..], term, h.next);
      assert Indices(page[0].nodes) == [] && AllIndices(page[1..]) == [];
      PageNumbers(script, v, page[1..], term, h.next);
      PageNumbersStep(script, v, page, term, next, h, rest);
    } else {
      assert Range(next, 0) == [];
    }
  }

  lemma PageNumbersStep(script: Script, v: Variant, page: Page, term: string, next: nat, h: Fragment, rest: Marked)
    requires |term| > 0 && page != [] && Indices(page[0].nodes) == []
    requires h == HighlightNodes(script, v, page[0].parent, page[0].nodes, term, next)
    requires rest == HighlightPage(script, v, page[1..], term, h.next)
    requires PageNumberedFrom(rest, h.next)
    ensures PageNumberedFrom(HighlightPage(script, v, page, term, next), next)
  {
    PageCons(script, v, page, term, next, h, rest);
    NodesNumbers(script, v, page[0].parent, page[0].nodes, term, next);
    PageNumbersJoin(Slot(page[0].parent, h.nodes), rest, next, h.next);
  }

  /** One step of the walk over the slots. */
  lemma PageCons(script: Script, v: Variant, page: Page, term: string, next: nat, h: Fragment, rest: Marked)
    requires |term| > 0 && page != []
    requires h == HighlightNodes(script, v, page[0].parent, page[0].nodes, term, next)
    requires rest == HighlightPage(script, v, page[1..], term, h.next)
    ensures HighlightPage(script, v, page, term, next) == Marked([Slot(page[0].parent, h.nodes)] + rest.page, rest.next)
  {
  }

  lemma PageNumbersJoin(s: Slot, rest: Marked, from: nat, mid: nat)
    requires from <= mid && Indices(s.nodes) == Range(from, mid - from) && PageNumberedFrom(rest, mid)
    ensures PageNumberedFrom(Marked([s] + rest.page, rest.next), from)
  {
    assert ([s] + rest.page)[1..] == rest.page;
  }


  // ---------------------------------------------------------------------------------------
  // The current match
  // ---------------------------------------------------------------------------------------

  /** `highlightCurrent()` on one node: a span is active exactly when it is the current one. */
  function MarkNode(n: Node, current: nat): Node {
    if n.Span? then Span(n.s, n.idx, n.idx == current) else n
  }

  function MarkNodes(ns: seq<Node>, current: nat): (r: seq<Node>)
    ensures |r| == |ns|
    decreases |ns|
  {
    if ns == [] then [] else [MarkNode(ns[0], current)] + MarkNodes(ns[1..], current)
  }

  /** `highlightCurrent()` over the page. The source walks the registry and marks its entries;
      this marks the page's spans by their index, which is the same thing on pages whose every
      span is registered, the only pages a message leaves (`Content.DispatchKeepsOwned`). */
  function MarkCurrent(page: Page, current: nat): (r: Page)
    ensures |r| == |page|
    ensures forall k :: 0 <= k < |r| ==> r[k].parent == page[k].parent && |r[k].nodes| == |page[k].nodes|
    decreases |page|
  {
    if page == [] then [] else [Slot(page[0].parent, MarkNodes(page[0].nodes, current))] + MarkCurrent(page[1..], current)
  }

  /** The indices of the active spans of a run of nodes, and of a page. */
  function ActiveIn(ns: seq<Node>): seq<nat>
    decreases |ns|
  {
    if ns == [] then [] else (if ns[0].Span? && ns[0].active then [ns[0].idx] else []) + ActiveIn(ns[1..])
  }

  function AllActive(page: Page): seq<nat>
    decreases |page|
  {
    if page == [] then [] else ActiveIn(page[0].nodes) + AllActive(page[1..])
  }

  /** The entries of `xs` equal to `c`. */
  function Only(xs: seq<nat>, c: nat): seq<nat>
    decreases |xs|
  {
    if xs == [] then [] else (if xs[0] == c then [c] else []) + Only(xs[1..], c)
  }

  lemma OnlyAppend(a: seq<nat>, b: seq<nat>, c: nat)
    ensures Only(a + b, c) == Only(a, c) + Only(b, c)
  {
    if a != [] {
      assert (a + b)[1..] == a[1..] + b;
      OnlyAppend(a[1..], b, c);
    } else {
      assert a + b == b;
    }
  }

  /** Marking keeps every node's text and index and sets `active` on the spans whose index is
      the current one, and only on them. */
  lemma {:induction false} MarkNodesFacts(ns: seq<Node>, current: nat)
    ensures TextOf(MarkNodes(ns, current)) == TextOf(ns)
    ensures Indices(MarkNodes(ns, current)) == Indices(ns)
    ensures ActiveIn(MarkNodes(ns, current)) == Only(Indices(ns), current)
    ensures Indices(ns) == [] ==> MarkNodes(ns, current) == ns
    decreases |ns|
  {
    if ns != [] {
      MarkNodesFacts(ns[1..], current);
      var head := if ns[0].Span? then [ns[0].idx] else [];
      OnlyAppend(head, Indices(ns[1..]), current);
      assert MarkNodes(ns, current)[1..] == MarkNodes(ns[1..], current);
    }
  }

  /** Marking over the page: each slot keeps its parent, text and indices; a slot without
      spans is untouched; the active spans are those whose index is the current one. */
  lemma {:induction false} MarkCurrentFacts(page: Page, current: nat)
    ensures forall k :: 0 <= k < |page| ==>
              && MarkCurrent(page, current)[k].parent == page[k].parent
              && TextOf(MarkCurrent(page, current)[k].nodes) == TextOf(page[k].nodes)
              && Indices(MarkCurrent(page, current)[k].nodes) == Indices(page[k].nodes)
              && (Indices(page[k].nodes) == [] ==> MarkCurrent(page, current)[k] == page[k])
    ensures AllIndices(MarkCurrent(page, current)) == AllIndices(page)
    ensures AllActive(MarkCurrent(page, current)) == Only(AllIndices(page), current)
    decreases |page|
  {
    if page != [] {
      var r := MarkCurrent(page, current);
      var s := Slot(page[0].parent, MarkNodes(page[0].nodes, current));
      assert r == [s] + MarkCurrent(page[1..], current);
      MarkNodesFacts(page[0].nodes, current);
      MarkCurrentFacts(page[1..], current);
      OnlyAppend(Indices(page[0].nodes), AllIndices(page[1..]), current);
      forall k | 0 <= k < |page|
        ensures && r[k].parent == page[k].parent
                && TextOf(r[k].nodes) == TextOf(page[k].nodes)
                && Indices(r[k].nodes) == Indices(page[k].nodes)
                && (Indices(page[k].nodes) == [] ==> r[k] == page[k])
      {
        if k > 0 {
          assert page[k] == page[1..][k - 1] && r[k] == MarkCurrent(page[1..], current)[k - 1];
        }
      }
    }
  }

  /** Without spans nothing is active. */
  lemma {:induction false} NoSpanNoActive(page: Page)
    requires AllIndices(page) == []
    ensures AllActive(page) == []
    decreases |page|
  {
    if page != [] {
      NodesNoActive(page[0].nodes);
      NoSpanNoActive(page[1..]);
    }
  }

  lemma {:induction false} NodesNoActive(ns: seq<Node>)
    requires Indices(ns) == []
    ensures ActiveIn(ns) == []
    decreases |ns|
  {
    if ns != [] {
      NodesNoActive(ns[1..]);
    }
  }

  /** In a registry numbered 0, 1, ... the current index 0 picks exactly one span. */
  lemma OnlyFirst(n: nat)
    requires n > 0
    ensures Only(Range(0, n), 0) == [0]
  {
    RangeCons(0, n - 1);
    OnlyAbsent(Range(1, n - 1), 0);
  }

  lemma {:induction false} OnlyAbsent(xs: seq<nat>, c: nat)
    requires forall i :: 0 <= i < |xs| ==> xs[i] != c
    ensures Only(xs, c) == []
    decreases |xs|
  {
    if xs != [] {
      OnlyAbsent(xs[1..], c);
    }
  }

  // ---------------------------------------------------------------------------------------
  // performSearch
  // ---------------------------------------------------------------------------------------

  /** `performSearch(searchTerm)`: clear, then stop when the term trims to nothing; otherwise
      highlight every collected text node, registering the new spans in document order and
      numbering them from `highlights.length`, which the clear has reset to 0. content.ts
      reports the number of spans and content.js its `matchCount`; when that is 0 the red
      "No matches found" counter is shown, and otherwise the count and, when there is a span,
      the first span as the current one. */
  function Search(script: Script, v: Variant, st: State, term: string): (r: State)
    ensures r.session.current == 0 && r.session.highlights == Range(0, |r.session.highlights|)
    ensures !IsBlank(term) ==> r.session.counter.Some? && r.session.counter.value.attached
  {
    TrimEmptyIffBlank(term);
    var c := Clear(st);
    if Trim(term) == [] then c else SearchCleared(script, v, c.page, term)
  }

  /** The part of `performSearch` after the clear, on the cleared page: the spans are
      registered as 0, 1, ..., the first is the current one, and an attached, undimmed counter
      is shown. */
  function SearchCleared(script: Script, v: Variant, page: Page, term: string): (r: State)
    requires |term| > 0
    ensures r.session.current == 0 && r.session.highlights == Range(0, |r.session.highlights|)
    ensures r.session.counter.Some? && r.session.counter.value.attached && !r.session.counter.value.faded
  {
    var h := HighlightPage(script, v, page, term, 0);
    var count := if script == Ts then h.next else PageMatches(script, page, term);
    var hs := Range(0, h.next);
    if count > 0 then
      State(Session(hs, 0, Some(Counter(CounterText(count), false, true, false))),
            if h.next > 0 then MarkCurrent(h.page, 0) else h.page)
    else
      State(Session(hs, 0, Some(Counter(NoMatchesText, true, true, false))), h.page)
  }

  /** On a page without spans the registry lists every span, numbered 0, 1, ... in document
      order, and exactly the first span is active when there is one. */
  lemma ClearedRegistry(script: Script, v: Variant, page: Page, term: string)
    requires |term| > 0 && AllIndices(page) == []
    ensures SearchCleared(script, v, page, term).session.highlights
            == Range(0, |SearchCleared(script, v, page, term).session.highlights|)
    ensures AllIndices(SearchCleared(script, v, page, term).page) == SearchCleared(script, v, page, term).session.highlights
    ensures AllActive(SearchCleared(script, v, page, term).page)
            == if SearchCleared(script, v, page, term).session.highlights == [] then [] else [0]
  {
    var h := HighlightPage(script, v, page, term, 0);
    PageNumbers(script, v, page, term, 0);
    assert AllIndices(h.page) == Range(0, h.next);
    PageFacts(script, v, page, term, 0);
    if h.next > 0 {
      MarkCurrentFacts(h.page, 0);
      OnlyFirst(h.next);
    } else {
      NoSpanNoActive(h.page);
    }
  }

  /** Every slot keeps its parent, and its text where the highlighter keeps text; a slot that
      holds no span after the search is untouched. */
  lemma ClearedShape(script: Script, v: Variant, page: Page, term: string)
    requires |term| > 0 && AllIndices(page) == []
    ensures |SearchCleared(script, v, page, term).page| == |page|
    ensures forall k :: 0 <= k < |page| ==> Grown(KeepsText(script, v), page[k], SearchCleared(script, v, page, term).page[k])
  {
    var h := HighlightPage(script, v, page, term, 0);
    PageFacts(script, v, page, term, 0);
    MarkCurrentFacts(h.page, 0);
    AllIndicesEmpty(page);
    var r := SearchCleared(script, v, page, term);
    forall k | 0 <= k < |page| ensures Grown(KeepsText(script, v), page[k], r.page[k]) {
      assert Grown(KeepsText(script, v), page[k], h.page[k]);
    }
  }

  /** A term of white space only clears and highlights nothing. */
  lemma SearchBlank(script: Script, v: Variant, st: State, term: string)
    requires IsBlank(term)
    ensures Search(script, v, st, term) == Clear(st)
  {
    TrimEmptyIffBlank(term);
  }

  /** After a search the registry lists every span on the page, numbered 0, 1, ... in
      document order, and the current index is 0: the session owns the page again. */
  lemma SearchRegistry(script: Script, v: Variant, st: State, term: string)
    requires Owned(st.session, st.page)
    ensures Search(script, v, st, term).session.highlights == Range(0, |Search(script, v, st, term).session.highlights|)
    ensures AllIndices(Search(script, v, st, term).page) == Search(script, v, st, term).session.highlights
    ensures Owned(Search(script, v, st, term).session, Search(script, v, st, term).page)
    ensures Search(script, v, st, term).session.current == 0
  {
    var c := Clear(st);
    var r := Search(script, v, st, term);
    var blank := Trim(term) == [];
    assert r == if blank then c else SearchCleared(script, v, c.page, term);
    RegistryAfterClear(script, v, c, blank, term, r);
  }

  /** The registry after the clear, whether or not the term is blank. */
  lemma RegistryAfterClear(script: Script, v: Variant, c: State, blank: bool, term: string, r: State)
    requires AllIndices(c.page) == [] && c.session.highlights == [] && c.session.current == 0
    requires !blank ==> |term| > 0
    requires r == if blank then c else SearchCleared(script, v, c.page, term)
    ensures r.session.highlights == Range(0, |r.session.highlights|)
    ensures AllIndices(r.page) == r.session.highlights
    ensures Owned(r.session, r.page) && r.session.current == 0
  {
    if blank {
      assert Range(0, 0) == [];
    } else {
      ClearedRegistry(script, v, c.page, term);
    }
    ListedIsOwned(r.session, r.page);
  }

  /** A registry that lists exactly the spans on the page owns it. */
  lemma ListedIsOwned(s: Session, page: Page)
    requires AllIndices(page) == s.highlights
    ensures Owned(s, page)
  {
  }

  /** What a search on a non-blank term reports. The spans number at most the matches
      `text.match` finds in the collected nodes, exactly that many where `CountsAll`, and none
      only when there is no match. The counter is attached and undimmed; it is red and says
      "No matches found" exactly when there is no match, and otherwise gives content.ts's
      span count or content.js's match count. */
  lemma SearchCounts(script: Script, v: Variant, st: State, term: string)
    requires !IsBlank(term)
    ensures |Search(script, v, st, term).session.highlights| <= PageMatches(script, Clear(st).page, term)
    ensures CountsAll(script, v) ==>
              |Search(script, v, st, term).session.highlights| == PageMatches(script, Clear(st).page, term)
    ensures Search(script, v, st, term).session.highlights == [] <==> PageMatches(script, Clear(st).page, term) == 0
    ensures Search(script, v, st, term).session.counter
            == Some(Counter(if PageMatches(script, Clear(st).page, term) == 0 then NoMatchesText
                            else if script == Ts then CounterText(|Search(script, v, st, term).session.highlights|)
                            else CounterText(PageMatches(script, Clear(st).page, term)),
                            PageMatches(script, Clear(st).page, term) == 0, true, false))
  {
    TrimEmptyIffBlank(term);
    var c := Clear(st);
    PageFacts(script, v, c.page, term, 0);
  }

  /** Exactly one span is active after a search that found something, the first one; none
      otherwise. */
  lemma SearchActive(script: Script, v: Variant, st: State, term: string)
    requires Owned(st.session, st.page)
    ensures AllActive(Search(script, v, st, term).page)
            == if Search(script, v, st, term).session.highlights == [] then [] else [0]
  {
    var c := Clear(st);
    assert AllIndices(c.page) == [];
    if Trim(term) == [] {
      NoSpanNoActive(c.page);
    } else {
      ClearedRegistry(script, v, c.page, term);
    }
  }

  /** Every slot keeps its parent, and its text where the highlighter keeps text. */
  lemma SearchKeepsText(script: Script, v: Variant, st: State, term: string)
    ensures |Search(script, v, st, term).page| == |st.page|
    ensures forall k :: 0 <= k < |st.page| ==> Search(script, v, st, term).page[k].parent == st.page[k].parent
    ensures KeepsText(script, v) ==> forall k :: 0 <= k < |st.page| ==>
              TextOf(Search(script, v, st, term).page[k].nodes) == TextOf(st.page[k].nodes)
  {
    var c := Clear(st);
    var r := Search(script, v, st, term);
    if Trim(term) != [] {
      assert r == SearchCleared(script, v, c.page, term);
      ClearedKeepsText(script, v, c.page, term);
    }
    forall k | 0 <= k < |st.page|
      ensures r.page[k].parent == st.page[k].parent
      ensures KeepsText(script, v) ==> TextOf(r.page[k].nodes) == TextOf(st.page[k].nodes)
    {
      assert Evolved(st.page[k], c.page[k]);
    }
  }

  /** The search after the clear keeps the slots' parents, and their text where the
      highlighter keeps text. */
  lemma ClearedKeepsText(script: Script, v: Variant, page: Page, term: string)
    requires |term| > 0
    ensures |SearchCleared(script, v, page, term).page| == |page|
    ensures forall k :: 0 <= k < |page| ==> SearchCleared(script, v, page, term).page[k].parent == page[k].parent
    ensures KeepsText(script, v) ==> forall k :: 0 <= k < |page| ==>
              TextOf(SearchCleared(script, v, page, term).page[k].nodes) == TextOf(page[k].nodes)
  {
    var h := HighlightPage(script, v, page, term, 0);
    var r := SearchCleared(script, v, page, term);
    PageFacts(script, v, page, term, 0);
    MarkCurrentFacts(h.page, 0);
    forall k | 0 <= k < |page|
      ensures r.page[k].parent == page[k].parent
      ensures KeepsText(script, v) ==> TextOf(r.page[k].nodes) == TextOf(page[k].nodes)
    {
      assert Grown(KeepsText(script, v), page[k], h.page[k]);
    }
  }

  /** A page as the browser builds it: in every slot the text is one node or none, and there
      are no spans. */
  predicate Plain(page: Page) {
    forall k :: 0 <= k < |page| ==> Normalized(page[k].nodes) && Indices(page[k].nodes) == []
  }

  /** Clearing leaves a plain page as it is. */
  lemma ClearPlain(st: State)
    requires Plain(st.page)
    ensures Owned(st.session, st.page)
    ensures Clear(st).page == st.page
  {
    assert Owned(st.session, st.page) by { AllIndicesEmpty(st.page); }
    var c := Clear(st);
    forall k | 0 <= k < |st.page| ensures c.page[k] == st.page[k] {
      assert Indices(st.page[k].nodes) == [] && Evolved(st.page[k], c.page[k]);
    }
  }

  /** Clearing after a search restores a plain page exactly, for the highlighters that keep
      the text. */
  lemma SearchRoundTrip(script: Script, v: Variant, st: State, term: string)
    requires KeepsText(script, v) && Plain(st.page)
    ensures Clear(Search(script, v, st, term)).page == st.page
  {
    ClearPlain(st);
    if Trim(term) == [] {
      ClearIdempotent(st);
    } else {
      AllIndicesEmpty(st.page);
      var r := SearchCleared(script, v, st.page, term);
      ClearedRegistry(script, v, st.page, term);
      ClearedShape(script, v, st.page, term);
      ClearedRoundTrip(st.page, r);
    }
  }

  /** Clearing a page that grew from a plain page, with its text kept and every span
      registered, gives the plain page back. */
  lemma ClearedRoundTrip(page: Page, r: State)
    requires Plain(page) && |r.page| == |page|
    requires forall k :: 0 <= k < |page| ==> Grown(true, page[k], r.page[k])
    requires AllIndices(r.page) == r.session.highlights
    ensures Clear(r).page == page
  {
    var e := Clear(r);
    forall k | 0 <= k < |page| ensures e.page[k] == page[k] {
      assert Evolved(r.page[k], e.page[k]);
      assert Grown(true, page[k], r.page[k]);
      NormalizedTextOnly(page[k].nodes);
    }
  }

  /** Searching again for the same term changes nothing, for the highlighters that keep the
      text. */
  lemma SearchIdempotent(script: Script, v: Variant, st: State, term: string)
    requires KeepsText(script, v) && Plain(st.page)
    ensures Search(script, v, Search(script, v, st, term), term) == Search(script, v, st, term)
  {
    if Trim(term) == [] {
      ClearIdempotent(st);
    } else {
      SearchRoundTrip(script, v, st, term);
      ClearPlain(st);
    }
  }

  /** The one-paragraph page "xfoox". */
  const XfooxPage: Page := [Slot(Some(Parent("P", [])), [Text("xfoox")])]

  /** content.js as written on the one-paragraph page "xfoox": searching for "foo" leaves the
      text "x", the active span "foo", the text "foo" and the text "x". */
  lemma JsSearchDuplicates(st: State, term: string)
    requires st == State(Fresh, XfooxPage) && term == "foo"
    ensures Search(Js, AsWritten, st, term).page
            == [Slot(Some(Parent("P", [])), [Text("x"), Span("foo", 0, true), Text("foo"), Text("x")])]
    ensures Search(Js, AsWritten, st, term).session.highlights == [0]
  {
    assert Clear(st).page == XfooxPage by { XfooxPlain(); ClearPlain(st); }
    assert Trim(term) == "foo" by { assert !IsSpace('f') && !IsSpace('o'); }
    assert Search(Js, AsWritten, st, term) == SearchCleared(Js, AsWritten, XfooxPage, term);
    XfooxCleared(XfooxPage, term);
  }

  /** The search after the clear, on the page "xfoox". */
  lemma XfooxCleared(page: Page, term: string)
    requires page == XfooxPage && term == "foo"
    ensures SearchCleared(Js, AsWritten, page, term).page
            == [Slot(Some(Parent("P", [])), [Text("x"), Span("foo", 0, true), Text("foo"), Text("x")])]
    ensures SearchCleared(Js, AsWritten, page, term).session.highlights == [0]
  {
    XfooxHighlight(term);
    XfooxMark();
    assert Range(0, 1) == [0];
  }

  lemma XfooxPlain()
    ensures Plain(XfooxPage)
  {
  }

  /** The walk over the page "xfoox" for "foo" under content.js as written. */
  lemma XfooxHighlight(term: string)
    requires term == "foo"
    ensures HighlightPage(Js, AsWritten, XfooxPage, term, 0)
            == Marked([Slot(Some(Parent("P", [])), [Text("x"), Span("foo", 0, false), Text("foo"), Text("x")])], 1)
    ensures PageMatches(Js, XfooxPage, term) == 1
  {
    var p := Some(Parent("P", []));
    var nodes := [Text("x"), Span("foo", 0, false), Text("foo"), Text("x")];
    XfooxNode(p, "xfoox", term);
    assert HighlightNodes(Js, AsWritten, p, [Text("xfoox")], term, 0) == Fragment(nodes, 1);
    assert NodesMatches(Js, p, [Text("xfoox")], term) == 1;
  }

  /** The text node "xfoox" under content.js as written. */
  lemma XfooxNode(parent: Option<Parent>, text: string, term: string)
    requires parent == Some(Parent("P", [])) && text == "xfoox" && term == "foo"
    ensures NodeResult(Js, AsWritten, parent, Text(text), term, 0)
            == Fragment([Text("x"), Span("foo", 0, false), Text("foo"), Text("x")], 1)
    ensures NodeMatches(Js, parent, Text(text), term) == 1
  {
    var f := Fragment([Text("x"), Span("foo", 0, false), Text("foo"), Text("x")], 1);
    XfooxDuplicates(text, term);
    XfooxParts(text, term);
    assert Accepts(Js, parent, text, term) by {
      MatchAllEmptyIffNotContains(text, term);
      assert !Excluded(Js, parent.value);
    }
    assert HighlightWith(Js, AsWritten, text, term, 0) == Some(f);
  }

  lemma XfooxMark()
    ensures MarkCurrent([Slot(Some(Parent("P", [])), [Text("x"), Span("foo", 0, false), Text("foo"), Text("x")])], 0)
            == [Slot(Some(Parent("P", [])), [Text("x"), Span("foo", 0, true), Text("foo"), Text("x")])]
  {
    var nodes := [Text("x"), Span("foo", 0, false), Text("foo"), Text("x")];
    assert MarkNodes(nodes, 0) == [Text("x"), Span("foo", 0, true), Text("foo"), Text("x")];
  }

  /** Clearing that page does not give it back: the paragraph now reads "xfoofoox". */
  lemma JsClearKeepsDuplicate(st: State, term: string)
    requires st == State(Fresh, XfooxPage) && term == "foo"
    ensures Clear(Search(Js, AsWritten, st, term)).page == [Slot(Some(Parent("P", [])), [Text("xfoofoox")])]
  {
    JsSearchDuplicates(st, term);
    var r := Search(Js, AsWritten, st, term);
    MarkedXfoox(r.page);
    ListedIsOwned(r.session, r.page);
    ClearOneSlot(r);
  }

  /** The text and the registry of the page content.js leaves. */
  lemma MarkedXfoox(page: Page)
    requires page == [Slot(Some(Parent("P", [])), [Text("x"), Span("foo", 0, true), Text("foo"), Text("x")])]
    ensures TextOf(page[0].nodes) == "xfoofoox"
    ensures Indices(page[0].nodes) == [0] && AllIndices(page) == [0]
  {
    var ns := page[0].nodes;
    assert ns[1..][1..][1..][1..] == [];
    assert AllIndices(page) == Indices(ns) + AllIndices(page[1..]);
  }

  /** Clearing a one-slot page whose spans are all registered leaves one text node with the
      slot's text. */
  lemma ClearOneSlot(r: State)
    requires |r.page| == 1 && Indices(r.page[0].nodes) != [] && TextOf(r.page[0].nodes) != []
    requires Owned(r.session, r.page)
    ensures Clear(r).page == [Slot(r.page[0].parent, [Text(TextOf(r.page[0].nodes))])]
  {
    var e := Clear(r).page;
    assert Evolved(r.page[0], e[0]);
  }

  // ---------------------------------------------------------------------------------------
  // The counter's timer
  // ---------------------------------------------------------------------------------------

  /** The 3-second timer set with a counter, firing on whatever counter the session holds by
      then; `error` says whether the timer was set by the "No matches found" message.
      content.ts removes an attached counter either way; content.js does so after "No matches
      found" and otherwise only dims an attached counter. */
  function Expire(script: Script, s: Session, error: bool): (r: Session)
    ensures r.highlights == s.highlights && r.current == s.current
    ensures (script == Ts || error) ==> (r.counter.None? || !r.counter.value.attached)
    ensures (script == Ts || error) && r.counter.Some? ==> r.counter == s.counter
    ensures script == Js && !error ==> (r.counter.Some? <==> s.counter.Some?)
    ensures script == Js && !error && r.counter.Some? ==>
              && r.counter.value.text == s.counter.value.text
              && r.counter.value.isError == s.counter.value.isError
              && r.counter.value.attached == s.counter.value.attached
              && (r.counter.value.attached ==> r.counter.value.faded)
  {
    if script == Ts || error then s.(counter := RemoveCounter(s.counter))
    else if s.counter.Some? && s.counter.value.attached then s.(counter := Some(s.counter.value.(faded := true)))
    else s
  }

  /** A content.ts timer left over from an earlier search removes the counter of a later one:
      the timer does not check which counter it was set for. */
  lemma StaleTimerRemovesNewCounter(st: State, term: string, error: bool)
    requires !IsBlank(term)
    ensures Expire(Ts, Search(Ts, AsWritten, st, term).session, error).counter == None
  {
    SearchCounts(Ts, AsWritten, st, term);
  }
}
