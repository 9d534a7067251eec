/** The highlight session shared by both content scripts (src/content/content.ts and
    content.js): the registry of spans (`highlights`), the current index, the status counter,
    and the clear operation that turns every registered span back into text. Registered spans
    are identified by their `data-search-index`. */
module Registry {
  import opened Wrappers
  import opened Strings
  import opened Dom

  /** The floating status element (`content-search-counter`): its text, whether it has the red
      "no results" background, whether it still has a parent node, and whether content.js has
      dimmed it to opacity 0.7. */
  datatype Counter = Counter(text: string, isError: bool, attached: bool, faded: bool)

  /** The fields of a `ContentSearcher`: `highlights` lists the `data-search-index` of every
      registered span in creation order. */
  datatype Session = Session(highlights: seq<nat>, current: nat, counter: Option<Counter>)

  /** A content script's session together with the page it acts on. */
  datatype State = State(session: Session, page: Page)

  /** A new `ContentSearcher`: nothing registered, index 0, no counter. */
  const Fresh: Session := Session([], 0, None)

  /** Every span on the page is a registered one (counted with multiplicity). */
  predicate Owned(s: Session, page: Page) {
    multiset(AllIndices(page)) <= multiset(s.highlights)
  }

  /** `removeCounter()`: the counter is dropped only when it is still attached; a counter that
      lost its parent stays referenced. */
  function RemoveCounter(c: Option<Counter>): (r: Option<Counter>)
    ensures r.None? || !r.value.attached
    ensures c.None? || c.value.attached ==> r.None?
    ensures r.Some? ==> r == c
  {
    if c.Some? && c.value.attached then None else c
  }

  /** The text `${count} match${count !== 1 ? 'es' : ''} found`: it opens with a digit and
      closes with " found", so a count text is never the "no results" text. */
  function CounterText(n: nat): (r: string)
    ensures |r| > 6 && '0' <= r[0] <= '9' && r[|r| - 6..] == " found"
    ensures r != NoMatchesText
  {
    var d := NatToString(n);
    var r := d + " match" + (if n != 1 then "es" else "") + " found";
    assert r[0] == d[0];
    assert r != NoMatchesText by {
      assert NoMatchesText[0] == 'N';
    }
    r
  }

  /** The counter text names the count it was made from, and says "match" only for one. */
  lemma CounterTextReadsBack(n: nat)
    ensures var r := CounterText(n);
            var d := NatToString(n);
            && r[..|d|] == d && DigitsValue(r[..|d|]) == n
            && r[|d|] == ' '
            && (n == 1 <==> r == "1 match found")
  {
    NatToStringRoundTrip(n);
    var d := NatToString(n);
    var r := CounterText(n);
    var tail := " match" + (if n != 1 then "es" else "") + " found";
    assert r == d + tail;
    assert r[..|d|] == d && r[|d|] == tail[0];
    if n == 1 {
      assert d == [DigitChar(1)] == "1";
      assert tail == " match found";
    } else {
      assert |tail| == 14;
      assert |r| != |"1 match found"|;
    }
  }

  /** The text of the "no results" counter. */
  const NoMatchesText: string := "No matches found"

  /** The position of the span with index `idx` in a run of nodes, if there is one. */
  function FindIn(ns: seq<Node>, idx: nat): (r: Option<nat>)
    ensures r.Some? ==> r.value < |ns| && ns[r.value].Span? && ns[r.value].idx == idx
    ensures r.None? <==> idx !in Indices(ns)
  {
    if |ns| == 0 then None
    else if ns[0].Span? && ns[0].idx == idx then Some(0)
    else
      match FindIn(ns[1..], idx)
      case Some(j) => Some(j + 1)
      case None => None
  }

  /** The first slot holding the span with index `idx`, from slot `k` on, and its position. */
  function FindSpan(page: Page, idx: nat, k: nat): (r: Option<(nat, nat)>)
    ensures r.Some? ==> k <= r.value.0 < |page| && FindIn(page[r.value.0].nodes, idx) == Some(r.value.1)
    ensures r.None? ==> forall k' :: k <= k' < |page| ==> idx !in Indices(page[k'].nodes)
    decreases |page| - k
  {
    if k >= |page| then None
    else
      match FindIn(page[k].nodes, idx)
      case Some(j) => Some((k, j))
      case None => FindSpan(page, idx, k + 1)
  }

  /** `parent.replaceChild(document.createTextNode(highlight.textContent), highlight)`. */
  function ReplaceSpan(ns: seq<Node>, j: nat): (r: seq<Node>)
    requires j < |ns| && ns[j].Span?
    ensures TextOf(r) == TextOf(ns)
    ensures multiset(Indices(r)) == multiset(Indices(ns)) - multiset{ns[j].idx}
  {
    var r := ns[..j] + [Text(ns[j].s)] + ns[j + 1..];
    assert ns == ns[..j] + [ns[j]] + ns[j + 1..];
    TextOfAppend(ns[..j] + [ns[j]], ns[j + 1..]);
    TextOfAppend(ns[..j], [ns[j]]);
    TextOfAppend(ns[..j] + [Text(ns[j].s)], ns[j + 1..]);
    TextOfAppend(ns[..j], [Text(ns[j].s)]);
    IndicesAppend(ns[..j] + [ns[j]], ns[j + 1..]);
    IndicesAppend(ns[..j], [ns[j]]);
    IndicesAppend(ns[..j] + [Text(ns[j].s)], ns[j + 1..]);
    IndicesAppend(ns[..j], [Text(ns[j].s)]);
    assert Indices([Text(ns[j].s)]) == [];
    assert Indices([ns[j]]) == [ns[j].idx];
    r
  }

  lemma UpdateSlotIndices(page: Page, k: nat, slot: Slot)
    requires k < |page|
    ensures multiset(AllIndices(page[k := slot])) + multiset(Indices(page[k].nodes))
            == multiset(AllIndices(page)) + multiset(Indices(slot.nodes))
  {
    var r := page[k := slot];
    AllIndicesSplit(page, k);
    AllIndicesSplit(r, k);
    assert r[..k] == page[..k] && r[k + 1..] == page[k + 1..];
  }

  /** Taking one `x` out of a multiset that holds it, on both sides of a balance. */
  lemma MultisetCancel(r: multiset<nat>, n: multiset<nat>, m: multiset<nat>, x: nat)
    requires x in n && r + n == m + (n - multiset{x})
    ensures r == m - multiset{x} && r + multiset{x} == m
  {
    forall y ensures r[y] + multiset{x}[y] == m[y] {
      assert (r + n)[y] == (m + (n - multiset{x}))[y];
      if y == x {
        assert (n - multiset{x})[y] == n[y] - 1;
      } else {
        assert (n - multiset{x})[y] == n[y];
      }
    }
    assert r + multiset{x} == m;
  }

  /** The span at position `j` becomes a text node with its text, then the run is normalized. */
  function RestoreIn(ns: seq<Node>, j: nat): (r: seq<Node>)
    requires j < |ns| && ns[j].Span?
    ensures Normalized(r) && TextOf(r) == TextOf(ns)
    ensures multiset(Indices(r)) == multiset(Indices(ns)) - multiset{ns[j].idx}
  {
    Normalize(ReplaceSpan(ns, j))
  }

  /** How a slot may change while highlights are cleared: it keeps its parent and its text,
      and it is either left alone or it held spans and is now normalized. */
  predicate Evolved(o: Slot, n: Slot) {
    && n.parent == o.parent
    && TextOf(n.nodes) == TextOf(o.nodes)
    && (n == o || (Indices(o.nodes) != [] && Normalized(n.nodes)))
  }

  lemma EvolvedTrans(a: Slot, b: Slot, c: Slot)
    requires Evolved(a, b) && Evolved(b, c)
    ensures Evolved(a, c)
  {
  }

  /** A slot that held spans, changed as clearing changes slots and holds none any more, is
      again the single text node holding its text. */
  lemma EvolvedToText(o: Slot, n: Slot)
    requires Evolved(o, n) && Indices(o.nodes) != [] && Indices(n.nodes) == []
    ensures n.nodes == TextSlot(TextOf(o.nodes))
  {
    NormalizedTextOnly(n.nodes);
  }

  /** One iteration of `clearHighlights`: the span with index `idx`, if it is still attached,
      becomes a text node with its text and its parent is normalized; a detached span is
      skipped. */
  function RestoreSpan(page: Page, idx: nat): (r: Page)
    ensures |r| == |page|
    ensures forall k :: 0 <= k < |page| ==> Evolved(page[k], r[k])
    ensures multiset(AllIndices(r)) == multiset(AllIndices(page)) - multiset{idx}
  {
    match FindSpan(page, idx, 0)
    case None =>
      InAllIndices(page, idx);
      assert multiset(AllIndices(page))[idx] == 0;
      page
    case Some((k, j)) =>
      var slot := Slot(page[k].parent, RestoreIn(page[k].nodes, j));
      RestoreSpanIndices(page, k, slot, idx);
      UpdateEvolved(page, k, slot);
      page[k := slot]
  }

  /** Changing one slot as clearing changes slots leaves every slot `Evolved`. */
  lemma UpdateEvolved(page: Page, k: nat, slot: Slot)
    requires k < |page| && Evolved(page[k], slot)
    ensures forall i :: 0 <= i < |page| ==> Evolved(page[i], page[k := slot][i])
  {
  }

  lemma RestoreSpanIndices(page: Page, k: nat, slot: Slot, idx: nat)
    requires k < |page| && idx in Indices(page[k].nodes)
    requires multiset(Indices(slot.nodes)) == multiset(Indices(page[k].nodes)) - multiset{idx}
    ensures multiset(AllIndices(page[k := slot])) == multiset(AllIndices(page)) - multiset{idx}
  {
    UpdateSlotIndices(page, k, slot);
    MultisetCancel(multiset(AllIndices(page[k := slot])), multiset(Indices(page[k].nodes)),
                   multiset(AllIndices(page)), idx);
  }

  /** Taking out `a` and then `b` is taking out both at once. */
  lemma MultisetDiffDiff(m: multiset<nat>, a: multiset<nat>, b: multiset<nat>)
    ensures (m - a) - b == m - (a + b)
  {
    forall y ensures ((m - a) - b)[y] == (m - (a + b))[y] {
    }
  }

  lemma MultisetOfCons(hs: seq<nat>)
    requires |hs| > 0
    ensures multiset(hs) == multiset{hs[0]} + multiset(hs[1..])
  {
    assert hs == [hs[0]] + hs[1..];
  }

  lemma RestoreAllStep(page: Page, hs: seq<nat>, next: Page, r: Page)
    requires |hs| > 0 && |next| == |page| && |r| == |page|
    requires forall k :: 0 <= k < |page| ==> Evolved(page[k], next[k])
    requires forall k :: 0 <= k < |page| ==> Evolved(next[k], r[k])
    requires multiset(AllIndices(next)) == multiset(AllIndices(page)) - multiset{hs[0]}
    requires multiset(AllIndices(r)) == multiset(AllIndices(next)) - multiset(hs[1..])
    ensures forall k :: 0 <= k < |page| ==> Evolved(page[k], r[k])
    ensures multiset(AllIndices(r)) == multiset(AllIndices(page)) - multiset(hs)
  {
    MultisetOfCons(hs);
    MultisetDiffDiff(multiset(AllIndices(page)), multiset{hs[0]}, multiset(hs[1..]));
    forall k | 0 <= k < |page| ensures Evolved(page[k], r[k]) {
      EvolvedTrans(page[k], next[k], r[k]);
    }
  }

  /** The loop of `clearHighlights` over the registry, in registry order. */
  function RestoreAll(page: Page, hs: seq<nat>): (r: Page)
    ensures |r| == |page|
    ensures forall k :: 0 <= k < |page| ==> Evolved(page[k], r[k])
    ensures multiset(AllIndices(r)) == multiset(AllIndices(page)) - multiset(hs)
    decreases |hs|
  {
    if |hs| == 0 then page
    else
      var next := RestoreSpan(page, hs[0]);
      var r := RestoreAll(next, hs[1..]);
      RestoreAllStep(page, hs, next, r);
      r
  }

  /** Restoring every registered span leaves no span when every span was registered, and each
      slot that held spans is again a single text node. */
  lemma RestoreAllOwned(page: Page, hs: seq<nat>)
    ensures var r := RestoreAll(page, hs);
            multiset(AllIndices(page)) <= multiset(hs) ==>
              && AllIndices(r) == []
              && forall k :: 0 <= k < |page| ==>
                   r[k].nodes == if Indices(page[k].nodes) == [] then page[k].nodes
                                 else TextSlot(TextOf(page[k].nodes))
  {
    var r := RestoreAll(page, hs);
    if multiset(AllIndices(page)) <= multiset(hs) {
      assert |multiset(AllIndices(r))| == |AllIndices(r)| == 0;
      AllIndicesEmpty(r);
      forall k | 0 <= k < |page| && Indices(page[k].nodes) != []
        ensures r[k].nodes == TextSlot(TextOf(page[k].nodes))
      {
        EvolvedToText(page[k], r[k]);
      }
    }
  }

  /** `clearHighlights()`: every registered span still attached is turned back into its text,
      the registry is emptied, the index reset and an attached counter removed. Each slot keeps
      its parent and its text; when every span on the page is registered, none is left and each
      slot that held spans is again a single text node. */
  function Clear(st: State): (r: State)
    ensures r.session.highlights == [] && r.session.current == 0
    ensures r.session.counter == RemoveCounter(st.session.counter)
    ensures |r.page| == |st.page|
    ensures forall k :: 0 <= k < |st.page| ==> Evolved(st.page[k], r.page[k])
    ensures Owned(st.session, st.page) ==> AllIndices(r.page) == []
    ensures Owned(st.session, st.page) ==> forall k :: 0 <= k < |st.page| ==>
              r.page[k].nodes == if Indices(st.page[k].nodes) == [] then st.page[k].nodes
                                 else TextSlot(TextOf(st.page[k].nodes))
  {
    var page := RestoreAll(st.page, st.session.highlights);
    RestoreAllOwned(st.page, st.session.highlights);
    State(Session([], 0, RemoveCounter(st.session.counter)), page)
  }

  /** Clearing twice is clearing once: `clear` on an idle session changes nothing. */
  lemma ClearIdempotent(st: State)
    ensures Clear(Clear(st)) == Clear(st)
  {
  }

  /** Clear leaves the session consistent with the page: nothing registered, no span left. */
  lemma ClearOwned(st: State)
    requires Owned(st.session, st.page)
    ensures Owned(Clear(st).session, Clear(st).page)
  {
  }
}
