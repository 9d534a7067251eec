/** `highlightTextNode(textNode, regex)` of content.js. The loop walks the parts of
    `text.split(regex)`: every non-empty part is appended as a text node, and after part `i`,
    while matches remain, a span holding the next entry of `text.match(regex)` is appended.
    Because the regex captures, the matches are themselves among the parts, so each matched
    text appears twice: once as a text node and once inside a span placed after the part before
    it. */
module Duplicator {
  import opened Wrappers
  import opened Strings
  import opened Dom
  import opened Regex
  import opened Highlighter

  /** The loop over the parts still to walk, with `matches` the matches not yet wrapped and
      `next` the next free `data-search-index`. Each part is appended when non-empty; a span
      with the next match follows it when it is not the last part and matches remain. */
  function DupLoop(parts: seq<string>, matches: seq<string>, next: nat): (r: Fragment)
    ensures next <= r.next <= next + |matches|
    ensures parts != [] ==> r.next - next <= |parts| - 1
    decreases |parts|
  {
    if parts == [] then Fragment([], next)
    else if |parts| > 1 && matches != [] then
      var rest := DupLoop(parts[1..], matches[1..], next + 1);
      Fragment(Piece(parts[0]) + [Span(matches[0], next, false)] + rest.nodes, rest.next)
    else
      var rest := DupLoop(parts[1..], matches, next);
      Fragment(Piece(parts[0]) + rest.nodes, rest.next)
  }

  lemma PieceFacts(s: string)
    ensures SpanTexts(Piece(s)) == [] && Indices(Piece(s)) == [] && TextOf(Piece(s)) == s
  {
  }

  /** What one iteration that wraps a match contributes. */
  lemma WrapStep(p: string, m: string, next: nat, rest: seq<Node>)
    ensures SpanTexts(Piece(p) + [Span(m, next, false)] + rest) == [m] + SpanTexts(rest)
    ensures Indices(Piece(p) + [Span(m, next, false)] + rest) == [next] + Indices(rest)
    ensures TextOf(Piece(p) + [Span(m, next, false)] + rest) == p + m + TextOf(rest)
  {
    var head := Piece(p) + [Span(m, next, false)];
    WrapHead(p, m, next);
    SpanTextsAppend(head, rest);
    IndicesAppend(head, rest);
    TextOfAppend(head, rest);
  }

  /** A part followed by the span of one match. */
  lemma WrapHead(p: string, m: string, next: nat)
    ensures SpanTexts(Piece(p) + [Span(m, next, false)]) == [m]
    ensures Indices(Piece(p) + [Span(m, next, false)]) == [next]
    ensures TextOf(Piece(p) + [Span(m, next, false)]) == p + m
  {
    var sp := [Span(m, next, false)];
    PieceFacts(p);
    assert sp[1..] == [];
    SpanTextsAppend(Piece(p), sp);
    IndicesAppend(Piece(p), sp);
    TextOfAppend(Piece(p), sp);
  }

  /** What one iteration that wraps nothing contributes. */
  lemma PlainStep(p: string, rest: seq<Node>)
    ensures SpanTexts(Piece(p) + rest) == SpanTexts(rest)
    ensures Indices(Piece(p) + rest) == Indices(rest)
    ensures TextOf(Piece(p) + rest) == p + TextOf(rest)
  {
    PieceFacts(p);
    SpanTextsAppend(Piece(p), rest);
    IndicesAppend(Piece(p), rest);
    TextOfAppend(Piece(p), rest);
  }

  /** While there are more parts than twice the matches, every match gets its span: the spans
      hold the matches in order, numbered consecutively from `next`. */
  lemma {:induction false} DupSpans(parts: seq<string>, matches: seq<string>, next: nat)
    requires 2 * |matches| < |parts|
    ensures DupLoop(parts, matches, next).next == next + |matches|
    ensures SpanTexts(DupLoop(parts, matches, next).nodes) == matches
    ensures Indices(DupLoop(parts, matches, next).nodes) == Range(next, |matches|)
    decreases |parts|
  {
    if |parts| > 1 && matches != [] {
      var rest := DupLoop(parts[1..], matches[1..], next + 1);
      DupSpans(parts[1..], matches[1..], next + 1);
      WrapStep(parts[0], matches[0], next, rest.nodes);
      assert matches == [matches[0]] + matches[1..];
      RangeCons(next, |matches| - 1);
    } else if parts != [] {
      var rest := DupLoop(parts[1..], matches, next);
      DupNone(parts[1..], next);
      PlainStep(parts[0], rest.nodes);
    }
  }

  /** With no matches left the loop emits text only. */
  lemma {:induction false} DupNone(parts: seq<string>, next: nat)
    ensures DupLoop(parts, [], next).next == next
    ensures SpanTexts(DupLoop(parts, [], next).nodes) == []
    ensures Indices(DupLoop(parts, [], next).nodes) == []
    ensures TextOf(DupLoop(parts, [], next).nodes) == Concat(parts)
    decreases |parts|
  {
    if parts != [] {
      DupNone(parts[1..], next);
      PlainStep(parts[0], DupLoop(parts[1..], [], next).nodes);
    }
  }

  /** The text the loop emits holds every part and, on top of it, every wrapped match once
      more. */
  lemma {:induction false} DupText(parts: seq<string>, matches: seq<string>, next: nat)
    requires 2 * |matches| < |parts|
    ensures |TextOf(DupLoop(parts, matches, next).nodes)| == |Concat(parts)| + |Concat(matches)|
    decreases |parts|
  {
    if |parts| > 1 && matches != [] {
      var rest := DupLoop(parts[1..], matches[1..], next + 1);
      DupText(parts[1..], matches[1..], next + 1);
      WrapStep(parts[0], matches[0], next, rest.nodes);
    } else if parts != [] {
      DupNone(parts, next);
    }
  }

  /** Every match has the term's length, so together they take one term length each. */
  lemma {:induction false} MatchedLength(text: string, p: nat, term: string)
    requires p <= |text| && |term| > 0
    ensures |Concat(MatchAllFrom(text, p, term))| == |MatchAllFrom(text, p, term)| * |term|
    decreases |text| - p
  {
    match FindFrom(text, p, term)
    case None =>
    case Some(i) =>
      var rest := MatchAllFrom(text, i + |term|, term);
      var all := MatchAllFrom(text, p, term);
      MatchedLength(text, i + |term|, term);
      assert all == [text[i..i + |term|]] + rest;
      assert all[0] == text[i..i + |term|] && all[1..] == rest;
      assert Concat(all) == text[i..i + |term|] + Concat(rest);
      MulSucc(|rest|, |term|);
  }

  /** `highlightTextNode` of content.js on a text node that `match` found something in (the
      caller skips a node whose `match` is null); the loop starts with every part and every match. */
  function HighlightDuplicating(text: string, term: string, next: nat): (r: Option<Fragment>)
    requires |term| > 0
    ensures r.None? <==> MatchAll(text, term) == []
  {
    if MatchAll(text, term) == [] then None
    else Some(DupLoop(Split(text, term), MatchAll(text, term), next))
  }

  /** What content.js makes of a text node with matches: one span per match, holding the
      matches in order and numbered from `next`, while the text grows by one copy of every
      match, so the page never keeps its text. */
  lemma DuplicatingFacts(text: string, term: string, next: nat)
    requires |term| > 0 && MatchAll(text, term) != []
    ensures HighlightDuplicating(text, term, next).value.next == next + |MatchAll(text, term)|
    ensures SpanTexts(HighlightDuplicating(text, term, next).value.nodes) == MatchAll(text, term)
    ensures Indices(HighlightDuplicating(text, term, next).value.nodes) == Range(next, |MatchAll(text, term)|)
    ensures |TextOf(HighlightDuplicating(text, term, next).value.nodes)|
            == |text| + |MatchAll(text, term)| * |term|
    ensures TextOf(HighlightDuplicating(text, term, next).value.nodes) != text
  {
    var parts, ms := Split(text, term), MatchAll(text, term);
    SplitShape(text, term);
    DupSpans(parts, ms, next);
    DupText(parts, ms, next);
    MatchedLength(text, 0, term);
  }

  /** The corrected highlighter keeps what content.js gets right, the spans and their
      numbering, and drops the duplicated text. */
  lemma FixedKeepsSpans(text: string, term: string, next: nat)
    requires |term| > 0 && MatchAll(text, term) != []
    ensures SpanTexts(HighlightTextFixed(text, term, next).value.nodes)
            == SpanTexts(HighlightDuplicating(text, term, next).value.nodes)
    ensures HighlightTextFixed(text, term, next).value.next == HighlightDuplicating(text, term, next).value.next
    ensures TextOf(HighlightTextFixed(text, term, next).value.nodes) == text
  {
    DuplicatingFacts(text, term, next);
  }

  /** The parts and matches of "xfoox" for "foo". */
  lemma XfooxParts(text: string, term: string)
    requires text == "xfoox" && term == "foo"
    ensures MatchAll(text, term) == ["foo"]
    ensures Split(text, term) == ["x", "foo", "x"]
  {
    assert text[1..4] == "foo" && text[0..1] == "x" && text[4..] == "x";
    assert text[0..3] == "xfo" && LowerStr("xfo")[0] == 'x' && LowerStr("foo")[0] == 'f';
    assert !MatchAt(text, 0, term) && MatchAt(text, 1, term);
    assert FindFrom(text, 4, term) == None;
    assert FindFrom(text, 1, term) == Some(1);
    assert FindFrom(text, 0, term) == Some(1);
    assert MatchAllFrom(text, 4, term) == [];
    assert SplitFrom(text, 4, term) == ["x"];
  }

  /** The duplication on the smallest input: "xfoox" searched for "foo" becomes the text "x",
      a span "foo", the text "foo" and the text "x", which reads "xfoofoox". */
  lemma XfooxDuplicates(text: string, term: string)
    requires text == "xfoox" && term == "foo"
    ensures HighlightDuplicating(text, term, 0)
            == Some(Fragment([Text("x"), Span("foo", 0, false), Text("foo"), Text("x")], 1))
    ensures TextOf([Text("x"), Span("foo", 0, false), Text("foo"), Text("x")]) == "xfoofoox"
  {
    XfooxParts(text, term);
    XfooxLoop(Split(text, term), MatchAll(text, term));
    XfooxText([Text("x"), Span("foo", 0, false), Text("foo"), Text("x")]);
  }

  /** The loop over those parts and matches. */
  lemma XfooxLoop(parts: seq<string>, matches: seq<string>)
    requires parts == ["x", "foo", "x"] && matches == ["foo"]
    ensures DupLoop(parts, matches, 0) == Fragment([Text("x"), Span("foo", 0, false), Text("foo"), Text("x")], 1)
  {
    var tail := parts[1..];
    assert tail == ["foo", "x"] && tail[1..] == ["x"] && tail[1..][1..] == [];
    assert DupLoop(tail[1..], [], 1) == Fragment([Text("x")], 1);
    assert DupLoop(tail, [], 1) == Fragment([Text("foo"), Text("x")], 1);
  }

  lemma XfooxText(ns: seq<Node>)
    requires ns == [Text("x"), Span("foo", 0, false), Text("foo"), Text("x")]
    ensures TextOf(ns) == "xfoofoox"
  {
    var t := ns[1..][1..][1..];
    assert t == [Text("x")] && t[1..] == [];
    assert TextOf(t) == "x";
    assert TextOf(ns[1..][1..]) == "foox";
    assert TextOf(ns[1..]) == "foofoox";
  }
}
