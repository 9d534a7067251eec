/** The compiled pattern `new RegExp('(' + escapeRegex(term) + ')', 'gi')` and the three
    built-ins the engine applies to it: `String.prototype.split`, `String.prototype.match` and
    `RegExp.prototype.test`. Because the escaped term is a pattern of literal atoms
    (Pattern.LiteralOfEscape), the pattern matches a window of the text exactly when the window
    equals the term up to case; the `g` flag makes the searches leftmost and non-overlapping. */
module Regex {
  import opened Wrappers
  import opened Strings

  /** A case-insensitive occurrence of `term` starts at position `i` of `text`. */
  predicate MatchAt(text: string, i: nat, term: string) {
    i + |term| <= |text| && LowerStr(text[i..i + |term|]) == LowerStr(term)
  }

  /** `m` is, as a whole, one occurrence of `term`. */
  predicate IsOccurrence(m: string, term: string) {
    |m| == |term| && MatchAt(m, 0, term)
  }

  /** No occurrence of `term` lies inside `s`. */
  predicate Free(s: string, term: string) {
    forall i: nat :: i <= |s| ==> !MatchAt(s, i, term)
  }

  /** The leftmost occurrence at or after `from`: the regex engine's scan from `lastIndex`. */
  function FindFrom(text: string, from: nat, term: string): (r: Option<nat>)
    ensures r.Some? ==> from <= r.value && r.value + |term| <= |text|
    decreases |text| - from
  {
    if from + |term| > |text| then None
    else if MatchAt(text, from, term) then Some(from)
    else FindFrom(text, from + 1, term)
  }

  /** The scan finds the leftmost occurrence at or after `from`, and finds nothing only when
      there is none. */
  lemma {:induction false} FindFromMeaning(text: string, from: nat, term: string)
    ensures FindFrom(text, from, term).Some? ==> MatchAt(text, FindFrom(text, from, term).value, term)
    ensures FindFrom(text, from, term).Some? ==>
              forall i: nat :: from <= i < FindFrom(text, from, term).value ==> !MatchAt(text, i, term)
    ensures FindFrom(text, from, term).None? ==> forall i: nat :: from <= i ==> !MatchAt(text, i, term)
    decreases |text| - from
  {
    if from + |term| <= |text| && !MatchAt(text, from, term) {
      FindFromMeaning(text, from + 1, term);
    }
  }

  /** A window of a slice is a window of the whole text. */
  lemma MatchAtSlice(text: string, a: nat, b: nat, i: nat, term: string)
    requires a <= b <= |text|
    requires MatchAt(text[a..b], i, term)
    ensures MatchAt(text, a + i, term)
  {
    var w := text[a..b][i..i + |term|];
    assert forall k :: 0 <= k < |term| ==> w[k] == text[a + i + k];
    assert w == text[a + i..a + i + |term|];
  }

  /** `text.slice(p).split(regex)` for a capturing regex: the stretches between matches, with
      each match's captured text between them, so the parts alternate free text and
      occurrences. */
  function SplitFrom(text: string, p: nat, term: string): (parts: seq<string>)
    requires p <= |text| && |term| > 0
    ensures |parts| % 2 == 1
    decreases |text| - p
  {
    match FindFrom(text, p, term)
    case None => [text[p..]]
    case Some(i) => [text[p..i], text[i..i + |term|]] + SplitFrom(text, i + |term|, term)
  }

  lemma ConcatPair(a: string, b: string, rest: seq<string>)
    ensures Concat([a, b] + rest) == a + b + Concat(rest)
  {
    assert ([a, b] + rest)[1..] == [b] + rest;
    assert ([b] + rest)[1..] == rest;
  }

  /** Joining the parts of a split gives back the text: nothing is lost or added. */
  lemma {:induction false} SplitConcat(text: string, p: nat, term: string)
    requires p <= |text| && |term| > 0
    ensures Concat(SplitFrom(text, p, term)) == text[p..]
    decreases |text| - p
  {
    match FindFrom(text, p, term)
    case None =>
      assert Concat([text[p..]]) == text[p..] + Concat([]);
    case Some(i) =>
      SplitConcat(text, i + |term|, term);
      ConcatPair(text[p..i], text[i..i + |term|], SplitFrom(text, i + |term|, term));
      assert text[p..] == text[p..i] + text[i..i + |term|] + text[i + |term|..];
  }

  /** `text.split(regex)`. */
  function Split(text: string, term: string): seq<string>
    requires |term| > 0
  {
    SplitFrom(text, 0, term)
  }

  /** `text.slice(p).match(regex)` with the global flag: every match, leftmost first,
      non-overlapping (an empty list standing for `null`). */
  function MatchAllFrom(text: string, p: nat, term: string): (r: seq<string>)
    requires p <= |text| && |term| > 0
    ensures forall k :: 0 <= k < |r| ==> IsOccurrence(r[k], term)
    ensures |r| <= |text| - p
    decreases |text| - p
  {
    FindFromMeaning(text, p, term);
    match FindFrom(text, p, term)
    case None => []
    case Some(i) =>
      var m := text[i..i + |term|];
      assert m[0..|term|] == m;
      var rest := MatchAllFrom(text, i + |term|, term);
      [m] + rest
  }

  /** The matches never overlap, so together they take no more room than the text after `p`. */
  lemma {:induction false} MatchesFit(text: string, p: nat, term: string)
    requires p <= |text| && |term| > 0
    ensures |MatchAllFrom(text, p, term)| * |term| <= |text| - p
    decreases |text| - p
  {
    FindFromMeaning(text, p, term);
    match FindFrom(text, p, term)
    case None =>
    case Some(i) =>
      var rest := MatchAllFrom(text, i + |term|, term);
      MatchesFit(text, i + |term|, term);
      assert MatchAllFrom(text, p, term) == [text[i..i + |term|]] + rest;
      MulSucc(|rest|, |term|);
  }

  /** One more match takes one more term length. */
  lemma MulSucc(n: nat, t: nat)
    ensures (n + 1) * t == n * t + t
  {
  }

  /** `text.match(regex)`. */
  function MatchAll(text: string, term: string): seq<string>
    requires |term| > 0
  {
    MatchAllFrom(text, 0, term)
  }

  /** `regex.test(s)` on the global regex whose `lastIndex` is `lastIndex`: the verdict and the
      `lastIndex` it leaves behind. */
  function Test(s: string, lastIndex: nat, term: string): (r: (bool, nat))
    ensures r.0 ==> lastIndex + |term| <= r.1 <= |s|
    ensures !r.0 ==> r.1 == 0
  {
    if lastIndex > |s| then (false, 0)
    else
      match FindFrom(s, lastIndex, term)
      case None => (false, 0)
      case Some(i) => (true, i + |term|)
  }

  /** What `test` promises: a success reports an occurrence ending where the new `lastIndex`
      points, at or after the old one; a failure means no occurrence starts at or after the
      old `lastIndex`, and resets it to 0. */
  lemma TestMeaning(s: string, lastIndex: nat, term: string)
    ensures Test(s, lastIndex, term).0 ==>
              lastIndex + |term| <= Test(s, lastIndex, term).1
              && MatchAt(s, Test(s, lastIndex, term).1 - |term|, term)
    ensures !Test(s, lastIndex, term).0 ==>
              Test(s, lastIndex, term).1 == 0 && forall i: nat :: lastIndex <= i ==> !MatchAt(s, i, term)
  {
    FindFromMeaning(s, lastIndex, term);
  }

  /** The parts alternate free text (even positions) and occurrences (odd positions). */
  predicate Shaped(parts: seq<string>, term: string) {
    forall k :: 0 <= k < |parts| ==>
      if k % 2 == 0 then Free(parts[k], term) else IsOccurrence(parts[k], term)
  }

  /** A slice of the text in which the scan found nothing is free. */
  lemma FreeSlice(text: string, a: nat, b: nat, term: string)
    requires a <= b <= |text| && |term| > 0
    requires forall i: nat :: a <= i < b ==> !MatchAt(text, i, term)
    ensures Free(text[a..b], term)
  {
    forall j: nat | j <= |text[a..b]| ensures !MatchAt(text[a..b], j, term) {
      if MatchAt(text[a..b], j, term) { MatchAtSlice(text, a, b, j, term); }
    }
  }

  /** Prepending a free part and an occurrence keeps a list shaped. */
  lemma ShapedCons(parts: seq<string>, f: string, m: string, rest: seq<string>, term: string)
    requires parts == [f, m] + rest
    requires Free(f, term) && IsOccurrence(m, term) && Shaped(rest, term)
    ensures Shaped(parts, term)
  {
    forall k | 0 <= k < |parts|
      ensures if k % 2 == 0 then Free(parts[k], term) else IsOccurrence(parts[k], term)
    {
      if k >= 2 { assert parts[k] == rest[k - 2]; }
    }
  }


  /** The window where an occurrence starts is, on its own, one occurrence. */
  lemma OccurrenceSlice(text: string, i: nat, term: string)
    requires MatchAt(text, i, term)
    ensures IsOccurrence(text[i..i + |term|], term)
  {
    assert text[i..i + |term|][0..|term|] == text[i..i + |term|];
  }

  /** One step of the split: a free stretch and an occurrence put in front of shaped parts. */
  lemma SplitShapedStep(text: string, p: nat, term: string, i: nat)
    requires p <= |text| && |term| > 0 && FindFrom(text, p, term) == Some(i)
    requires Free(text[p..i], term) && IsOccurrence(text[i..i + |term|], term)
    requires Shaped(SplitFrom(text, i + |term|, term), term)
    ensures Shaped(SplitFrom(text, p, term), term)
  {
    var rest := SplitFrom(text, i + |term|, term);
    var parts := SplitFrom(text, p, term);
    assert parts == [text[p..i], text[i..i + |term|]] + rest;
    ShapedCons(parts, text[p..i], text[i..i + |term|], rest, term);
  }

  /** Split yields free text at the even positions and single occurrences at the odd ones. */
  lemma {:induction false} SplitShaped(text: string, p: nat, term: string)
    requires p <= |text| && |term| > 0
    ensures Shaped(SplitFrom(text, p, term), term)
    decreases |text| - p
  {
    match FindFrom(text, p, term)
    case None =>
      assert Free(text[p..], term) by {
        FindFromMeaning(text, p, term);
        FreeSlice(text, p, |text|, term);
        assert text[p..] == text[p..|text|];
      }
      ShapedOne(text[p..], term);
    case Some(i) =>
      SplitShaped(text, i + |term|, term);
      assert Free(text[p..i], term) && IsOccurrence(text[i..i + |term|], term) by {
        FindFromMeaning(text, p, term);
        FreeSlice(text, p, i, term);
        OccurrenceSlice(text, i, term);
      }
      SplitShapedStep(text, p, term, i);
  }

  lemma ShapedOne(f: string, term: string)
    requires Free(f, term)
    ensures Shaped([f], term)
  {
  }


  /** The odd parts: the matches, in order. */
  function Odds(parts: seq<string>): (r: seq<string>)
    requires |parts| % 2 == 1
    ensures |parts| == 2 * |r| + 1
  {
    if |parts| == 1 then [] else [parts[1]] + Odds(parts[2..])
  }

  lemma {:induction false} OddsIndex(parts: seq<string>)
    requires |parts| % 2 == 1
    ensures forall k :: 0 <= k < |Odds(parts)| ==> Odds(parts)[k] == parts[2 * k + 1]
    decreases |parts|
  {
    if |parts| > 1 {
      OddsIndex(parts[2..]);
      forall k | 1 <= k < |Odds(parts)| ensures Odds(parts)[k] == parts[2 * k + 1] {
        assert parts[2..][2 * (k - 1) + 1] == parts[2 * k + 1];
      }
    }
  }

  /** The odd parts of a split are exactly the list `match` returns. */
  lemma {:induction false} SplitOdds(text: string, p: nat, term: string)
    requires p <= |text| && |term| > 0
    ensures Odds(SplitFrom(text, p, term)) == MatchAllFrom(text, p, term)
    decreases |text| - p
  {
    match FindFrom(text, p, term)
    case None =>
    case Some(i) =>
      var rest := SplitFrom(text, i + |term|, term);
      SplitOdds(text, i + |term|, term);
      assert ([text[p..i], text[i..i + |term|]] + rest)[2..] == rest;
      assert Odds(SplitFrom(text, p, term)) == [text[i..i + |term|]] + Odds(rest);
  }

  /** The facts about a split together: it alternates free text and occurrences, its odd
      parts are the matches (one fewer than its parts of free text), and it joins back into
      the text. */
  lemma SplitShape(text: string, term: string)
    requires |term| > 0
    ensures Shaped(Split(text, term), term)
    ensures Odds(Split(text, term)) == MatchAll(text, term)
    ensures |Split(text, term)| == 2 * |MatchAll(text, term)| + 1
    ensures Concat(Split(text, term)) == text
  {
    SplitShaped(text, 0, term);
    SplitOdds(text, 0, term);
    SplitConcat(text, 0, term);
  }

  /** `match` finds nothing exactly when no window of the text equals the term up to case,
      which is the test `text.toLowerCase().includes(term.toLowerCase())` performs. */
  lemma MatchAllEmptyIffNotContains(text: string, term: string)
    requires |term| > 0
    ensures MatchAll(text, term) == [] <==> !Contains(LowerStr(text), LowerStr(term))
  {
    var lt, lw := LowerStr(text), LowerStr(term);
    if Contains(lt, lw) {
      var i :| 0 <= i <= |lt| && WindowAt(lt, i, lw);
      LowerStrSlice(text, i, i + |term|);
      assert MatchAt(text, i, term);
      FindFromMeaning(text, 0, term);
    } else if MatchAll(text, term) != [] {
      FindFromMeaning(text, 0, term);
      var i := FindFrom(text, 0, term).value;
      LowerStrSlice(text, i, i + |term|);
      assert WindowAt(lt, i, lw);
    }
  }

  /** `test` on free text fails and resets `lastIndex`, whatever `lastIndex` was. */
  lemma TestFree(s: string, lastIndex: nat, term: string)
    requires Free(s, term)
    ensures Test(s, lastIndex, term) == (false, 0)
  {
    FindFromMeaning(s, lastIndex, term);
  }

  /** `test` on a single occurrence succeeds from `lastIndex` 0 and fails from anywhere else. */
  lemma TestOccurrence(m: string, lastIndex: nat, term: string)
    requires |term| > 0 && IsOccurrence(m, term)
    ensures Test(m, lastIndex, term) == if lastIndex == 0 then (true, |term|) else (false, 0)
  {
    FindFromMeaning(m, lastIndex, term);
  }
}
