/** String helpers standing in for the JavaScript built-ins the engine calls:
    `toLowerCase`, `includes`, `startsWith`, `trim`, and number-to-text conversion. */
module Strings {

  /** Lower-casing of one character. Only ASCII letters are folded; the model leaves
      Unicode case mapping out. */
  function Lower(c: char): char {
    if 'A' <= c <= 'Z' then (c as int + 32) as char else c
  }

  /** `s.toLowerCase()` under the ASCII folding of `Lower`. */
  function LowerStr(s: string): (r: string)
    ensures |r| == |s|
    ensures forall i {:trigger r[i]} :: 0 <= i < |s| ==> r[i] == Lower(s[i])
  {
    seq(|s|, i requires 0 <= i < |s| => Lower(s[i]))
  }

  lemma LowerStrSlice(s: string, a: int, b: int)
    requires 0 <= a <= b <= |s|
    ensures LowerStr(s)[a..b] == LowerStr(s[a..b])
  {
  }

  /** The characters of `s` from position `i` on begin with `sub`. */
  predicate WindowAt(s: string, i: int, sub: string) {
    0 <= i && i + |sub| <= |s| && s[i..i + |sub|] == sub
  }

  /** `s.includes(sub)`: some window of `s` equals `sub`. */
  predicate Contains(s: string, sub: string) {
    exists i :: 0 <= i <= |s| && WindowAt(s, i, sub)
  }

  /** `s.startsWith(prefix)`. */
  predicate StartsWith(s: string, prefix: string) {
    |prefix| <= |s| && s[..|prefix|] == prefix
  }

  /** Characters removed by `String.prototype.trim`: white space and line terminators. */
  predicate IsSpace(c: char) {
    || c == ' ' || c == '\t' || c == '\n' || c == '\r'
    || c == '\U{000B}' || c == '\U{000C}' || c == '\U{00A0}' || c == '\U{FEFF}'
    || c == '\U{1680}' || ('\U{2000}' <= c <= '\U{200A}')
    || c == '\U{2028}' || c == '\U{2029}' || c == '\U{202F}' || c == '\U{205F}'
    || c == '\U{3000}'
  }

  /** Every character of `s` is white space (the empty string included). */
  predicate IsBlank(s: string) {
    forall i :: 0 <= i < |s| ==> IsSpace(s[i])
  }

  /** The end of the run of white space that starts at `from`. */
  function Lead(s: string, from: nat): (n: nat)
    requires from <= |s|
    ensures from <= n <= |s|
    ensures forall i :: from <= i < n ==> IsSpace(s[i])
    ensures n < |s| ==> !IsSpace(s[n])
    decreases |s| - from
  {
    if from < |s| && IsSpace(s[from]) then Lead(s, from + 1) else from
  }

  /** The start of the run of white space that ends at `stop`. */
  function Trail(s: string, stop: nat): (n: nat)
    requires stop <= |s|
    ensures n <= stop
    ensures forall i :: n <= i < stop ==> IsSpace(s[i])
    ensures n > 0 ==> !IsSpace(s[n - 1])
    decreases stop
  {
    if stop > 0 && IsSpace(s[stop - 1]) then Trail(s, stop - 1) else stop
  }

  /** `s` with its leading white space removed. */
  function TrimStart(s: string): string {
    s[Lead(s, 0)..]
  }

  /** `s` with its trailing white space removed. */
  function TrimEnd(s: string): string {
    s[..Trail(s, |s|)]
  }

  /** `r` is the slice of `s` starting at `a`, and all that lies outside it is white space. */
  predicate TrimCut(s: string, a: int, r: string) {
    && 0 <= a <= a + |r| <= |s| && r == s[a..a + |r|]
    && (forall i :: 0 <= i < a ==> IsSpace(s[i]))
    && (forall i :: a + |r| <= i < |s| ==> IsSpace(s[i]))
  }

  /** `s.trim()`: leading, then trailing white space removed. */
  function Trim(s: string): string {
    TrimEnd(TrimStart(s))
  }

  /** What `trim` leaves is a slice of `s` that neither starts nor ends with white space, and
      everything cut off is white space. */
  lemma TrimMeaning(s: string)
    ensures exists a :: TrimCut(s, a, Trim(s))
    ensures Trim(s) == [] || (!IsSpace(Trim(s)[0]) && !IsSpace(Trim(s)[|Trim(s)| - 1]))
  {
    TrimCutAt(s);
    TrimEnds(s);
  }

  lemma TrimCutAt(s: string)
    ensures TrimCut(s, Lead(s, 0), Trim(s))
  {
    var a := Lead(s, 0);
    var t := s[a..];
    var r := t[..Trail(t, |t|)];
    assert Trim(s) == r;
    CutJoin(s, t, r, a);
  }

  /** Cutting white space off the front and then off the back leaves a trim cut. */
  lemma CutJoin(s: string, t: string, r: string, a: nat)
    requires a <= |s| && t == s[a..] && |r| <= |t| && r == t[..|r|]
    requires forall i :: 0 <= i < a ==> IsSpace(s[i])
    requires forall i :: |r| <= i < |t| ==> IsSpace(t[i])
    ensures TrimCut(s, a, r)
  {
    assert s[a..][..|r|] == s[a..a + |r|];
    forall i | a + |r| <= i < |s| ensures IsSpace(s[i]) {
      assert s[i] == t[i - a];
    }
  }

  lemma TrimEnds(s: string)
    ensures Trim(s) == [] || (!IsSpace(Trim(s)[0]) && !IsSpace(Trim(s)[|Trim(s)| - 1]))
  {
    var a := Lead(s, 0);
    var t := s[a..];
    var e := Trail(t, |t|);
    var r := t[..e];
    assert Trim(s) == r;
    if r != [] {
      assert r[0] == s[a];
      assert r[e - 1] == t[e - 1];
    }
  }

  /** Trimming a trimmed string changes nothing. */
  lemma TrimIdempotent(s: string)
    ensures Trim(Trim(s)) == Trim(s)
  {
    var r := Trim(s);
    TrimEnds(s);
    if r != [] {
      assert Lead(r, 0) == 0 && r[0..] == r;
      assert Trail(r, |r|) == |r| && r[..|r|] == r;
    }
  }

  /** A string trims to the empty string exactly when it is blank. */
  lemma TrimEmptyIffBlank(s: string)
    ensures Trim(s) == [] <==> IsBlank(s)
  {
    var r := Trim(s);
    TrimMeaning(s);
    var a :| TrimCut(s, a, r);
    if r == [] {
      forall i | 0 <= i < |s| ensures IsSpace(s[i]) {
        if i >= a { assert a + |r| <= i; }
      }
    } else {
      assert !IsSpace(s[a]);
    }
  }

  /** The concatenation of a sequence of strings, in order. */
  function Concat(parts: seq<string>): string {
    if |parts| == 0 then [] else parts[0] + Concat(parts[1..])
  }

  lemma ConcatAppend(a: seq<string>, b: seq<string>)
    ensures Concat(a + b) == Concat(a) + Concat(b)
  {
    if |a| > 0 {
      assert (a + b)[1..] == a[1..] + b;
      ConcatAppend(a[1..], b);
    } else {
      assert a + b == b;
    }
  }

  /** The decimal digit character for `d`. */
  function DigitChar(d: nat): (c: char)
    requires d < 10
    ensures '0' <= c <= '9'
  {
    ('0' as int + d) as char
  }

  predicate IsDigits(s: string) {
    forall i :: 0 <= i < |s| ==> '0' <= s[i] <= '9'
  }

  /** The decimal text of `n`, as a template literal `${n}` renders a non-negative integer. */
  function NatToString(n: nat): (r: string)
    ensures |r| > 0 && IsDigits(r)
    ensures r[0] == '0' ==> n == 0
    decreases n
  {
    if n < 10 then [DigitChar(n)] else NatToString(n / 10) + [DigitChar(n % 10)]
  }

  /** The value of a string of decimal digits. */
  function DigitsValue(s: string): nat
    requires IsDigits(s)
  {
    if |s| == 0 then 0 else DigitsValue(s[..|s| - 1]) * 10 + (s[|s| - 1] as int - '0' as int)
  }

  /** Reading the decimal text of `n` back gives `n`. */
  lemma {:induction false} NatToStringRoundTrip(n: nat)
    ensures DigitsValue(NatToString(n)) == n
  {
    if n >= 10 {
      NatToStringRoundTrip(n / 10);
      var r := NatToString(n);
      assert r[..|r| - 1] == NatToString(n / 10);
    }
  }
}
