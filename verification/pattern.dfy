/** `escapeRegex` (src/content/content.ts, content.js): the search term is user text, so every
    regular-expression metacharacter in it is escaped before the term is compiled into a pattern.
    `Literal` reads a pattern back as the plain string it matches, which is how the rest of the
    model may treat the compiled pattern as a literal matcher for the term. */
module Pattern {
  import opened Wrappers

  /** The characters of the class `[.*+?^${}()|[\]\\]`. */
  predicate IsMeta(c: char) {
    || c == '.' || c == '*' || c == '+' || c == '?' || c == '^' || c == '$'
    || c == '{' || c == '}' || c == '(' || c == ')' || c == '|' || c == '['
    || c == ']' || c == '\\'
  }

  function CountMeta(s: string): nat {
    if |s| == 0 then 0 else (if IsMeta(s[0]) then 1 else 0) + CountMeta(s[1..])
  }

  /** `string.replace(/[.*+?^${}()|[\]\\]/g, '\\$&')`: a backslash goes in front of every
      metacharacter, every other character is copied. */
  function Escape(s: string): (r: string)
    ensures |r| == |s| + CountMeta(s)
  {
    if |s| == 0 then []
    else (if IsMeta(s[0]) then ['\\', s[0]] else [s[0]]) + Escape(s[1..])
  }

  /** The string a pattern matches when the pattern consists only of literal atoms: a
      character that is not a metacharacter stands for itself, and a backslash followed by a
      metacharacter stands for that metacharacter. Any other pattern (an unescaped
      metacharacter, a trailing backslash, an escape such as `\d`) is None. */
  function Literal(p: string): Option<string> {
    if |p| == 0 then Some([])
    else if p[0] == '\\' then
      if |p| >= 2 && IsMeta(p[1]) then
        match Literal(p[2..])
        case Some(rest) => Some([p[1]] + rest)
        case None => None
      else None
    else if IsMeta(p[0]) then None
    else
      match Literal(p[1..])
      case Some(rest) => Some([p[0]] + rest)
      case None => None
  }

  /** An escaped term is a pattern of literal atoms that matches exactly the term. */
  lemma {:induction false} LiteralOfEscape(s: string)
    ensures Literal(Escape(s)) == Some(s)
  {
    if |s| > 0 {
      LiteralOfEscape(s[1..]);
      var e := Escape(s);
      if IsMeta(s[0]) {
        assert e[2..] == Escape(s[1..]);
      } else {
        assert e[1..] == Escape(s[1..]);
      }
      assert [s[0]] + s[1..] == s;
    }
  }

  /** Conversely, every literal pattern is the escape of the string it matches: escaping
      loses nothing and adds nothing beyond the backslashes. */
  lemma {:induction false} EscapeOfLiteral(p: string, s: string)
    requires Literal(p) == Some(s)
    ensures Escape(s) == p
  {
    if |p| > 0 {
      if p[0] == '\\' {
        var rest := Literal(p[2..]).value;
        EscapeOfLiteral(p[2..], rest);
        assert s[1..] == rest;
        assert p == ['\\', p[1]] + p[2..];
      } else {
        var rest := Literal(p[1..]).value;
        EscapeOfLiteral(p[1..], rest);
        assert s[1..] == rest;
        assert p == [p[0]] + p[1..];
      }
    }
  }

  /** A term without metacharacters is its own pattern. */
  lemma {:induction false} EscapeIdentityIffNoMeta(s: string)
    ensures Escape(s) == s <==> CountMeta(s) == 0
  {
    if |s| > 0 {
      EscapeIdentityIffNoMeta(s[1..]);
      if !IsMeta(s[0]) {
        assert Escape(s) == [s[0]] + Escape(s[1..]);
        assert s == [s[0]] + s[1..];
      }
    }
  }
}
