/** `highlightTextNode` of src/content/content.ts: a text node holding at least one occurrence
    of the term is replaced by a fragment built from `text.split(regex)`. Each non-empty part
    is passed to `regex.test`, and becomes a highlight span when the test succeeds and a plain
    text node otherwise. The regex is global, so `test` starts at the `lastIndex` the previous
    `test` left behind. A match that directly follows a highlighted match (no text between
    them) is tested from the end of the previous match, fails, and stays plain text. */
module Highlighter {
  import opened Wrappers
  import opened Strings
  import opened Dom
  import opened Regex

  /** `count` consecutive indices starting at `from`. */
  function Range(from: nat, count: nat): (r: seq<nat>)
    ensures |r| == count
    ensures forall i :: 0 <= i < count ==> r[i] == from + i
  {
    seq(count, i requires 0 <= i < count => from + i)
  }

  lemma RangeCons(from: nat, count: nat)
    ensures [from] + Range(from + 1, count) == Range(from, count + 1)
  {
  }

  /** The texts of the spans in a run of nodes, left to right. */
  function SpanTexts(ns: seq<Node>): seq<string> {
    if |ns| == 0 then [] else (if ns[0].Span? then [ns[0].s] else []) + SpanTexts(ns[1..])
  }

  lemma SpanTextsAppend(a: seq<Node>, b: seq<Node>)
    ensures SpanTexts(a + b) == SpanTexts(a) + SpanTexts(b)
  {
    if |a| > 0 {
      assert (a + b)[1..] == a[1..] + b;
      SpanTextsAppend(a[1..], b);
    } else {
      assert a + b == b;
    }
  }

  // ---------------------------------------------------------------------------------------
  // The loop as written
  // ---------------------------------------------------------------------------------------

  /** The node made for a non-empty part: a span numbered `next` when `test` succeeded, a text
      node otherwise. */
  function NodeFor(part: string, hit: bool, next: nat): Node {
    if hit then Span(part, next, false) else Text(part)
  }

  /** The fragment built by the loop, the `lastIndex` it leaves, and the next free
      `data-search-index` (the registry length after the loop). */
  datatype Emitted = Emitted(nodes: seq<Node>, lastIndex: nat, next: nat)

  /** The loop over the parts as written: empty parts are skipped without a test; a part whose
      `test` succeeds becomes a span numbered `next`, any other part a text node. */
  function Emit(parts: seq<string>, lastIndex: nat, term: string, next: nat): (r: Emitted)
    ensures |r.nodes| <= |parts| && next <= r.next <= next + |r.nodes|
    decreases |parts|
  {
    if |parts| == 0 then Emitted([], lastIndex, next)
    else if parts[0] == [] then Emit(parts[1..], lastIndex, term, next)
    else
      var (hit, li) := Test(parts[0], lastIndex, term);
      var rest := Emit(parts[1..], li, term, if hit then next + 1 else next);
      Emitted([NodeFor(parts[0], hit, next)] + rest.nodes, rest.lastIndex, rest.next)
  }

  /** The fragment holds the text it replaces: nothing is lost or added. */
  lemma {:induction false} EmitKeepsText(parts: seq<string>, lastIndex: nat, term: string, next: nat)
    ensures TextOf(Emit(parts, lastIndex, term, next).nodes) == Concat(parts)
    decreases |parts|
  {
    if |parts| > 0 {
      var (hit, li) := Test(parts[0], lastIndex, term);
      var next' := if hit then next + 1 else next;
      if parts[0] == [] {
        EmitKeepsText(parts[1..], lastIndex, term, next);
      } else {
        EmitKeepsText(parts[1..], li, term, next');
        var rest := Emit(parts[1..], li, term, next');
        assert ([NodeFor(parts[0], hit, next)] + rest.nodes)[1..] == rest.nodes;
      }
    }
  }

  /** The spans of the fragment carry consecutive indices from `next` on, and the loop's next
      free index is just past them. */
  lemma {:induction false} EmitNumbers(parts: seq<string>, lastIndex: nat, term: string, next: nat)
    ensures next <= Emit(parts, lastIndex, term, next).next
    ensures Indices(Emit(parts, lastIndex, term, next).nodes)
            == Range(next, Emit(parts, lastIndex, term, next).next - next)
    decreases |parts|
  {
    if |parts| > 0 {
      var (hit, li) := Test(parts[0], lastIndex, term);
      var next' := if hit then next + 1 else next;
      if parts[0] == [] {
        EmitNumbers(parts[1..], lastIndex, term, next);
      } else {
        EmitNumbers(parts[1..], li, term, next');
        var rest := Emit(parts[1..], li, term, next');
        var node := NodeFor(parts[0], hit, next);
        assert ([node] + rest.nodes)[1..] == rest.nodes;
        if hit {
          assert Indices([node] + rest.nodes) == [next] + Indices(rest.nodes);
          RangeCons(next, rest.next - next');
        } else {
          assert Indices([node] + rest.nodes) == Indices(rest.nodes);
        }
      }
    }
  }

  // ---------------------------------------------------------------------------------------
  // Which matches get highlighted, stated without `lastIndex`
  // ---------------------------------------------------------------------------------------

  /** The nodes a part contributes when it is not highlighted. */
  function Piece(s: string): seq<Node> {
    if s == [] then [] else [Text(s)]
  }

  /** A match is highlighted unless it directly follows a highlighted match with no text
      between them. `prev` says whether the match just before `parts` was highlighted;
      `parts` alternates free text and matches and starts with free text. */
  function MarksFrom(parts: seq<string>, prev: bool): (marks: seq<bool>)
    requires |parts| % 2 == 1
    ensures |parts| == 2 * |marks| + 1
  {
    if |parts| == 1 then []
    else
      var hit := parts[0] != [] || !prev;
      [hit] + MarksFrom(parts[2..], hit)
  }

  /** One mark per match of a whole text node: no match precedes the first. */
  function Marks(parts: seq<string>): seq<bool>
    requires |parts| % 2 == 1
  {
    MarksFrom(parts, false)
  }

  function CountTrue(marks: seq<bool>): (n: nat)
    ensures n <= |marks|
  {
    if |marks| == 0 then 0 else (if marks[0] then 1 else 0) + CountTrue(marks[1..])
  }

  /** The fragment for alternating parts where match `k` is a span exactly when `marks[k]`;
      spans are numbered from `next` in order. */
  function Render(parts: seq<string>, marks: seq<bool>, next: nat): seq<Node>
    requires |parts| == 2 * |marks| + 1
  {
    if |marks| == 0 then Piece(parts[0])
    else
      Piece(parts[0])
      + ([NodeFor(parts[1], marks[0], next)]
         + Render(parts[2..], marks[1..], if marks[0] then next + 1 else next))
  }

  /** A free part is tested, fails, and leaves `lastIndex` at 0. */
  lemma EmitFree(parts: seq<string>, lastIndex: nat, term: string, next: nat)
    requires |parts| >= 1 && parts[0] != [] && Free(parts[0], term)
    ensures Emit(parts, lastIndex, term, next).nodes == Piece(parts[0]) + Emit(parts[1..], 0, term, next).nodes
    ensures Emit(parts, lastIndex, term, next).next == Emit(parts[1..], 0, term, next).next
  {
    TestFree(parts[0], lastIndex, term);
  }

  /** A match is highlighted when tested from 0 (`hit`) and left as text when tested from the
      end of a previous match; `li` and `next'` are what the loop carries on with. */
  lemma EmitMatch(parts: seq<string>, lastIndex: nat, term: string, next: nat, hit: bool, li: nat, next': nat)
    requires |parts| >= 1 && |term| > 0 && IsOccurrence(parts[0], term)
    requires lastIndex == 0 || lastIndex == |term|
    requires hit == (lastIndex == 0) && li == (if hit then |term| else 0)
    requires next' == if hit then next + 1 else next
    ensures Emit(parts, lastIndex, term, next).nodes
            == [NodeFor(parts[0], hit, next)] + Emit(parts[1..], li, term, next').nodes
    ensures Emit(parts, lastIndex, term, next).next == Emit(parts[1..], li, term, next').next
  {
    TestOccurrence(parts[0], lastIndex, term);
    assert parts[0] != [];
  }

  /** A free part and the match after it, in one step: the match is highlighted when the
      free part is non-empty (its failed test reset `lastIndex`) or `lastIndex` was already 0. */
  lemma EmitStep(parts: seq<string>, lastIndex: nat, term: string, next: nat, hit: bool, li: nat, next': nat)
    requires |parts| >= 2 && |term| > 0
    requires Free(parts[0], term) && IsOccurrence(parts[1], term)
    requires lastIndex == 0 || lastIndex == |term|
    requires hit == (parts[0] != [] || lastIndex == 0) && li == (if hit then |term| else 0)
    requires next' == if hit then next + 1 else next
    ensures Emit(parts, lastIndex, term, next).nodes
            == Piece(parts[0]) + ([NodeFor(parts[1], hit, next)] + Emit(parts[2..], li, term, next').nodes)
    ensures Emit(parts, lastIndex, term, next).next == Emit(parts[2..], li, term, next').next
  {
    assert parts[1..][1..] == parts[2..];
    if parts[0] != [] {
      EmitFree(parts, lastIndex, term, next);
      EmitMatch(parts[1..], 0, term, next, hit, li, next');
    } else {
      EmitMatch(parts[1..], lastIndex, term, next, hit, li, next');
    }
  }

  lemma OddDrop2(n: nat)
    requires n % 2 == 1 && n >= 2
    ensures (n - 2) % 2 == 1
  {
  }

  /** A shaped list of parts starts with free text and a match, and goes on shaped. */
  lemma ShapedDrop2(parts: seq<string>, term: string)
    requires |parts| >= 2 && Shaped(parts, term)
    ensures Free(parts[0], term) && IsOccurrence(parts[1], term)
    ensures Shaped(parts[2..], term)
  {
    assert Free(parts[0], term) && IsOccurrence(parts[1], term);
    forall k | 0 <= k < |parts[2..]|
      ensures if k % 2 == 0 then Free(parts[2..][k], term) else IsOccurrence(parts[2..][k], term)
    {
      assert parts[2..][k] == parts[k + 2];
      assert (k + 2) % 2 == k % 2;
    }
  }

  /** One step of the reference: the first pair is rendered by the first mark. */
  lemma RenderStep(parts: seq<string>, prev: bool, next: nat, hit: bool, next': nat)
    requires |parts| % 2 == 1 && |parts| >= 3
    requires hit == (parts[0] != [] || !prev) && next' == (if hit then next + 1 else next)
    ensures MarksFrom(parts, prev) == [hit] + MarksFrom(parts[2..], hit)
    ensures Render(parts, MarksFrom(parts, prev), next)
            == Piece(parts[0]) + ([NodeFor(parts[1], hit, next)]
               + Render(parts[2..], MarksFrom(parts[2..], hit), next'))
    ensures CountTrue(MarksFrom(parts, prev)) == (if hit then 1 else 0) + CountTrue(MarksFrom(parts[2..], hit))
  {
    var marks := MarksFrom(parts, prev);
    assert marks[1..] == MarksFrom(parts[2..], hit);
  }

  /** The loop as written highlights exactly the marked matches: the `lastIndex` it carries
      is `|term|` right after a highlighted match and 0 everywhere a free part was tested. */
  lemma {:induction false} EmitIsRender(parts: seq<string>, prev: bool, term: string, next: nat)
    requires |parts| % 2 == 1 && |term| > 0 && Shaped(parts, term)
    ensures Emit(parts, if prev then |term| else 0, term, next).nodes
            == Render(parts, MarksFrom(parts, prev), next)
    ensures Emit(parts, if prev then |term| else 0, term, next).next
            == next + CountTrue(MarksFrom(parts, prev))
    decreases |parts|
  {
    var li := if prev then |term| else 0;
    if |parts| == 1 {
      assert Free(parts[0], term);
      TestFree(parts[0], li, term);
    } else {
      var hit := parts[0] != [] || !prev;
      var next' := if hit then next + 1 else next;
      ShapedDrop2(parts, term);
      assert parts[1..][1..] == parts[2..];
      EmitStep(parts, li, term, next, hit, if hit then |term| else 0, next');
      RenderStep(parts, prev, next, hit, next');
      OddDrop2(|parts|);
      EmitIsRender(parts[2..], hit, term, next');
    }
  }

  // ---------------------------------------------------------------------------------------
  // Consequences of the marking rule
  // ---------------------------------------------------------------------------------------

  /** The marking rule at one position: a match after the first is highlighted exactly when
      text separates it from the match before it or that match was not highlighted. */
  lemma {:induction false} MarkAt(parts: seq<string>, prev: bool, k: nat)
    requires |parts| % 2 == 1 && 1 <= k < |MarksFrom(parts, prev)|
    ensures MarksFrom(parts, prev)[k] == (parts[2 * k] != [] || !MarksFrom(parts, prev)[k - 1])
    decreases k
  {
    var hit := parts[0] != [] || !prev;
    OddDrop2(|parts|);
    var m, m' := MarksFrom(parts, prev), MarksFrom(parts[2..], hit);
    assert m == [hit] + m';
    assert parts[2 * k] == parts[2..][2 * (k - 1)];
    if k > 1 {
      MarkAt(parts[2..], hit, k - 1);
    }
  }

  /** The marking rule at position `k` of the marks `m` of `parts`. */
  predicate RuleAt(parts: seq<string>, m: seq<bool>, k: int)
    requires |parts| == 2 * |m| + 1 && 1 <= k < |m|
  {
    m[k] == (parts[2 * k] != [] || !m[k - 1])
  }

  /** The marking rule position by position: the first match of a text node is always
      highlighted, and a later one is highlighted exactly when text separates it from the
      match before it or that match was not highlighted. */
  lemma MarksRule(parts: seq<string>, prev: bool)
    requires |parts| % 2 == 1
    ensures |MarksFrom(parts, prev)| > 0 ==> MarksFrom(parts, prev)[0] == (parts[0] != [] || !prev)
    ensures forall k :: 1 <= k < |MarksFrom(parts, prev)| ==> RuleAt(parts, MarksFrom(parts, prev), k)
  {
    var m := MarksFrom(parts, prev);
    forall k | 1 <= k < |m| ensures RuleAt(parts, m, k) {
      MarkAt(parts, prev, k);
    }
  }

  /** No two matches of the parts are adjacent: every free part strictly between two
      matches is non-empty. */
  predicate Apart(parts: seq<string>) {
    forall i :: 2 <= i < |parts| - 1 && i % 2 == 0 ==> parts[i] != []
  }

  /** Every match of a text node is highlighted exactly when no two of its matches touch. */
  lemma AllMarkedIffApart(parts: seq<string>)
    requires |parts| % 2 == 1
    ensures (forall k :: 0 <= k < |Marks(parts)| ==> Marks(parts)[k]) <==> Apart(parts)
  {
    var m := Marks(parts);
    MarksRule(parts, false);
    if Apart(parts) {
      forall k | 0 <= k < |m| ensures m[k] {
        if k > 0 {
          assert (2 * k) % 2 == 0;
          assert parts[2 * k] != [];
          assert RuleAt(parts, m, k);
        }
      }
    }
    if forall k :: 0 <= k < |m| ==> m[k] {
      forall i | 2 <= i < |parts| - 1 && i % 2 == 0 ensures parts[i] != [] {
        var k := i / 2;
        assert i == 2 * k && m[k] && m[k - 1];
        assert RuleAt(parts, m, k);
      }
    }
  }

  lemma {:induction false} CountTrueAll(marks: seq<bool>)
    ensures CountTrue(marks) == |marks| <==> forall k :: 0 <= k < |marks| ==> marks[k]
    decreases |marks|
  {
    if |marks| > 0 {
      var t := marks[1..];
      CountTrueAll(t);
      if forall k :: 0 <= k < |marks| ==> marks[k] {
        forall k | 0 <= k < |t| ensures t[k] { assert t[k] == marks[k + 1]; }
      }
      if CountTrue(marks) == |marks| {
        assert marks[0] && CountTrue(t) == |t|;
        forall k | 1 <= k < |marks| ensures marks[k] { assert marks[k] == t[k - 1]; }
      }
    }
  }

  // ---------------------------------------------------------------------------------------
  // The reference fragment: text, numbering and span contents
  // ---------------------------------------------------------------------------------------

  lemma {:induction false} RenderKeepsText(parts: seq<string>, marks: seq<bool>, next: nat)
    requires |parts| == 2 * |marks| + 1
    ensures TextOf(Render(parts, marks, next)) == Concat(parts)
    decreases |marks|
  {
    if |marks| > 0 {
      var next' := if marks[0] then next + 1 else next;
      var rest := Render(parts[2..], marks[1..], next');
      var node := NodeFor(parts[1], marks[0], next);
      RenderKeepsText(parts[2..], marks[1..], next');
      TextOfAppend(Piece(parts[0]), [node] + rest);
      assert ([node] + rest)[1..] == rest;
      assert parts == [parts[0], parts[1]] + parts[2..];
      ConcatPair(parts[0], parts[1], parts[2..]);
    }
  }

  lemma {:induction false} RenderNumbers(parts: seq<string>, marks: seq<bool>, next: nat)
    requires |parts| == 2 * |marks| + 1
    ensures Indices(Render(parts, marks, next)) == Range(next, CountTrue(marks))
    decreases |marks|
  {
    assert Indices(Piece(parts[0])) == [];
    if |marks| > 0 {
      var next' := if marks[0] then next + 1 else next;
      var rest := Render(parts[2..], marks[1..], next');
      var node := NodeFor(parts[1], marks[0], next);
      RenderNumbers(parts[2..], marks[1..], next');
      IndicesAppend(Piece(parts[0]), [node] + rest);
      assert ([node] + rest)[1..] == rest;
      if marks[0] {
        RangeCons(next, CountTrue(marks[1..]));
      }
    }
  }

  /** Every match marked. */
  function Trues(n: nat): (r: seq<bool>)
    ensures |r| == n && forall k :: 0 <= k < n ==> r[k]
  {
    seq(n, _ => true)
  }

  /** With every match marked, the spans hold exactly the matches, in order. */
  lemma {:induction false} RenderAllSpans(parts: seq<string>, next: nat)
    requires |parts| % 2 == 1
    ensures SpanTexts(Render(parts, Trues(|Odds(parts)|), next)) == Odds(parts)
    ensures CountTrue(Trues(|Odds(parts)|)) == |Odds(parts)|
    decreases |parts|
  {
    var n := |Odds(parts)|;
    CountTrueAll(Trues(n));
    assert SpanTexts(Piece(parts[0])) == [];
    if n > 0 {
      OddDrop2(|parts|);
      RenderAllSpans(parts[2..], next + 1);
      var rest := Render(parts[2..], Trues(n - 1), next + 1);
      var node := NodeFor(parts[1], true, next);
      assert Trues(n)[1..] == Trues(n - 1);
      SpanTextsAppend(Piece(parts[0]), [node] + rest);
      assert ([node] + rest)[1..] == rest;
    }
  }

  // ---------------------------------------------------------------------------------------
  // highlightTextNode, as written and corrected
  // ---------------------------------------------------------------------------------------

  /** What replaces a text node: its new children and the next free `data-search-index`. */
  datatype Fragment = Fragment(nodes: seq<Node>, next: nat)

  /** `highlightTextNode(textNode, term)` on a node with a parent, as written: None when
      `text.match` finds nothing (the node is left alone), otherwise the fragment that replaces
      the node. The regex is fresh, `match` with the global flag leaves its `lastIndex` at 0,
      and `split` works on a copy of it, so the loop starts at 0. The first match is always
      highlighted; every match is highlighted exactly when no two matches touch. */
  function HighlightText(text: string, term: string, next: nat): (r: Option<Fragment>)
    requires |term| > 0
    ensures r.None? <==> MatchAll(text, term) == []
    ensures r.Some? ==> TextOf(r.value.nodes) == text
    ensures r.Some? ==> next + 1 <= r.value.next <= next + |MatchAll(text, term)|
    ensures r.Some? ==> Indices(r.value.nodes) == Range(next, r.value.next - next)
    ensures r.Some? ==> (r.value.next == next + |MatchAll(text, term)| <==> Apart(Split(text, term)))
  {
    if MatchAll(text, term) == [] then None
    else
      var parts := Split(text, term);
      var e := Emit(parts, 0, term, next);
      HighlightTextFacts(text, term, next, parts, e);
      EmitNumbers(parts, 0, term, next);
      Some(Fragment(e.nodes, e.next))
  }

  /** What the loop makes of shaped parts started at `lastIndex` 0: the first match is a span,
      and every match is a span exactly when no two matches touch. */
  lemma EmitCount(parts: seq<string>, term: string, next: nat)
    requires |parts| % 2 == 1 && |parts| > 1 && |term| > 0 && Shaped(parts, term)
    ensures next + 1 <= Emit(parts, 0, term, next).next <= next + |Odds(parts)|
    ensures Emit(parts, 0, term, next).next == next + |Odds(parts)| <==> Apart(parts)
  {
    EmitIsRender(parts, false, term, next);
    var m := Marks(parts);
    MarksRule(parts, false);
    assert m[0];
    assert m == [true] + m[1..];
    CountTrueAll(m);
    AllMarkedIffApart(parts);
  }

  lemma HighlightTextFacts(text: string, term: string, next: nat, parts: seq<string>, e: Emitted)
    requires |term| > 0 && MatchAll(text, term) != []
    requires parts == Split(text, term) && e == Emit(parts, 0, term, next)
    ensures TextOf(e.nodes) == text
    ensures next + 1 <= e.next <= next + |MatchAll(text, term)|
    ensures e.next == next + |MatchAll(text, term)| <==> Apart(parts)
  {
    SplitShape(text, term);
    EmitKeepsText(parts, 0, term, next);
    EmitCount(parts, term, next);
  }

  /** `highlightTextNode` as evidently intended: every match of the split becomes a span,
      whatever the regex's `lastIndex`. The spans hold exactly the matches, in order, and are
      numbered consecutively. */
  function HighlightTextFixed(text: string, term: string, next: nat): (r: Option<Fragment>)
    requires |term| > 0
    ensures r.None? <==> MatchAll(text, term) == []
    ensures r.Some? ==> TextOf(r.value.nodes) == text
    ensures r.Some? ==> SpanTexts(r.value.nodes) == MatchAll(text, term)
    ensures r.Some? ==> r.value.next == next + |MatchAll(text, term)|
    ensures r.Some? ==> Indices(r.value.nodes) == Range(next, r.value.next - next)
  {
    if MatchAll(text, term) == [] then None
    else
      var parts := Split(text, term);
      SplitShape(text, term);
      var n := |MatchAll(text, term)|;
      var nodes := Render(parts, Trues(n), next);
      RenderKeepsText(parts, Trues(n), next);
      RenderNumbers(parts, Trues(n), next);
      RenderAllSpans(parts, next);
      Some(Fragment(nodes, next + n))
  }

  /** When no two matches touch, every match is marked. */
  lemma ApartAllMarked(parts: seq<string>)
    requires |parts| % 2 == 1 && Apart(parts)
    ensures Marks(parts) == Trues(|Odds(parts)|)
  {
    AllMarkedIffApart(parts);
  }

  /** The two agree on every text node whose matches do not touch. */
  lemma FixedAgreesWhenApart(text: string, term: string, next: nat)
    requires |term| > 0 && Apart(Split(text, term))
    ensures HighlightText(text, term, next) == HighlightTextFixed(text, term, next)
  {
    if MatchAll(text, term) != [] {
      var parts := Split(text, term);
      SplitShape(text, term);
      var n := |MatchAll(text, term)|;
      ApartAllMarked(parts);
      EmitIsRender(parts, false, term, next);
      RenderAllSpans(parts, next);
      var e := Emit(parts, 0, term, next);
      assert e.nodes == Render(parts, Trues(n), next) && e.next == next + n;
      HighlightTextUnfold(text, term, next);
      HighlightTextFixedUnfold(text, term, next);
    } else {
      assert HighlightText(text, term, next) == None == HighlightTextFixed(text, term, next);
    }
  }

  /** What `highlightText` builds once `match` has found something. */
  lemma HighlightTextUnfold(text: string, term: string, next: nat)
    requires |term| > 0 && MatchAll(text, term) != []
    ensures HighlightText(text, term, next)
            == Some(Fragment(Emit(Split(text, term), 0, term, next).nodes, Emit(Split(text, term), 0, term, next).next))
  {
  }

  /** What the corrected highlighter builds once `match` has found something. */
  lemma HighlightTextFixedUnfold(text: string, term: string, next: nat)
    requires |term| > 0 && MatchAll(text, term) != []
    requires |Split(text, term)| == 2 * |MatchAll(text, term)| + 1
    ensures HighlightTextFixed(text, term, next)
            == Some(Fragment(Render(Split(text, term), Trues(|MatchAll(text, term)|), next), next + |MatchAll(text, term)|))
  {
  }

  /** The matches and the split of "aa" by "a". */
  lemma AaParts(text: string, term: string)
    requires text == "aa" && term == "a"
    ensures MatchAll(text, term) == ["a", "a"]
    ensures Split(text, term) == ["", "a", "", "a", ""]
  {
    assert text[0..1] == "a" && text[1..2] == "a" && text[0..0] == "" && text[1..1] == "" && text[2..] == "";
    assert MatchAt(text, 0, term) && MatchAt(text, 1, term);
    assert FindFrom(text, 2, term) == None;
    assert FindFrom(text, 1, term) == Some(1);
    assert FindFrom(text, 0, term) == Some(0);
    assert MatchAllFrom(text, 2, term) == [];
    assert MatchAllFrom(text, 1, term) == ["a"];
    assert SplitFrom(text, 2, term) == [""];
    assert SplitFrom(text, 1, term) == ["", "a", ""];
  }

  lemma AaEmit()
    ensures Emit(["", "a", "", "a", ""], 0, "a", 0) == Emitted([Span("a", 0, false), Text("a")], 0, 1)
  {
    var p := ["", "a", "", "a", ""];
    assert p[1..] == ["a", "", "a", ""];
    assert p[1..][1..] == ["", "a", ""];
    assert p[1..][1..][1..] == ["a", ""];
    assert p[1..][1..][1..][1..] == [""];
    assert MatchAt("a", 0, "a");
    assert Test("a", 0, "a") == (true, 1);
    assert Test("a", 1, "a") == (false, 0);
    assert Emit([""], 0, "a", 1) == Emitted([], 0, 1);
    assert Emit(["a", ""], 1, "a", 1) == Emitted([Text("a")], 0, 1);
    assert Emit(["", "a", ""], 1, "a", 1) == Emitted([Text("a")], 0, 1);
    assert Emit(["a", "", "a", ""], 0, "a", 0) == Emitted([Span("a", 0, false), Text("a")], 0, 1);
  }

  /** The trap on the smallest input: in "aa" the term "a" matches twice, but only the first
      match is highlighted; the second is tested from `lastIndex` 1, fails and stays text. The
      corrected highlighter makes both matches spans. */
  lemma AdjacentMatchesOneSpan()
    ensures MatchAll("aa", "a") == ["a", "a"]
    ensures HighlightText("aa", "a", 0) == Some(Fragment([Span("a", 0, false), Text("a")], 1))
    ensures HighlightTextFixed("aa", "a", 0) == Some(Fragment([Span("a", 0, false), Span("a", 1, false)], 2))
  {
    AaParts("aa", "a");
    AaEmit();
    AaRender();
    assert Trues(2) == [true, true];
    assert HighlightTextFixed("aa", "a", 0) == Some(Fragment(Render(Split("aa", "a"), Trues(2), 0), 2));
  }

  /** The corrected fragment for the parts of "aa": both matches are spans. */
  lemma AaRender()
    ensures Render(["", "a", "", "a", ""], [true, true], 0) == [Span("a", 0, false), Span("a", 1, false)]
  {
    var p := ["", "a", "", "a", ""];
    assert p[2..] == ["", "a", ""] && p[2..][2..] == [""];
    assert [true, true][1..] == [true] && [true][1..] == [];
    assert Render([""], [], 2) == [];
    assert Render(["", "a", ""], [true], 1) == [Span("a", 1, false)];
    assert Trues(2) == [true, true];
  }
}
