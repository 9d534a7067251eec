/** The URL fallback of `getGoldenIdValue`, shared by src/content/content.ts and content.js:
    `url.match(/github\.com\/([^/]+)/)` and its first capture. The pattern is case-sensitive
    and not global, so it reports the leftmost place where the literal `github.com/` is followed
    by at least one character other than `/`, and the capture runs greedily up to the next `/`
    or the end of the URL. */
module Golden {
  import opened Wrappers

  const Host: string := "github.com/"

  /** The pattern matches at position `i`: the host literal, then a character that is not `/`. */
  predicate UserAt(url: string, i: nat) {
    i + |Host| < |url| && url[i..i + |Host|] == Host && url[i + |Host|] != '/'
  }

  /** The end of the run of non-`/` characters that starts at `j`. */
  function RunEnd(url: string, j: nat): (e: nat)
    requires j <= |url|
    ensures j <= e <= |url|
    ensures e == |url| || url[e] == '/'
    ensures forall k :: j <= k < e ==> url[k] != '/'
    decreases |url| - j
  {
    if j == |url| || url[j] == '/' then j else RunEnd(url, j + 1)
  }

  /** The leftmost position at or after `from` where the pattern matches. */
  function FindUser(url: string, from: nat): (r: Option<nat>)
    ensures r.Some? ==> from <= r.value && UserAt(url, r.value)
    ensures r.Some? ==> forall i: nat :: from <= i < r.value ==> !UserAt(url, i)
    ensures r.None? ==> forall i: nat :: from <= i ==> !UserAt(url, i)
    decreases |url| - from
  {
    if from + |Host| >= |url| then None
    else if UserAt(url, from) then Some(from)
    else FindUser(url, from + 1)
  }

  /** The pattern matches at `i` and nowhere before it. */
  predicate LeftmostUser(url: string, i: nat) {
    UserAt(url, i) && forall j: nat :: j < i ==> !UserAt(url, j)
  }

  /** `usernameMatch[1]`, or None when the URL does not match. The capture is never empty and
      never holds `/`; it is the whole run of non-`/` characters after the leftmost match. */
  function GithubUser(url: string): (r: Option<string>)
    ensures r.None? <==> forall i: nat :: !UserAt(url, i)
    ensures r.Some? ==> r.value != [] && forall k :: 0 <= k < |r.value| ==> r.value[k] != '/'
    ensures r.Some? ==> exists i: nat :: LeftmostUser(url, i) && r.value == url[i + |Host|..RunEnd(url, i + |Host|)]
  {
    match FindUser(url, 0)
    case None => None
    case Some(i) =>
      var j := i + |Host|;
      var e := RunEnd(url, j);
      assert forall k :: 0 <= k < e - j ==> url[j..e][k] == url[j + k];
      assert LeftmostUser(url, i);
      Some(url[j..e])
  }

  /** A profile URL gives back its user name: for `https://github.com/<user>` followed by
      nothing or by a path, the capture is exactly `<user>` whenever `<user>` is non-empty and
      holds no `/`. */
  lemma {:induction false} ProfileUrlGivesUser(user: string, rest: string)
    requires user != [] && forall k :: 0 <= k < |user| ==> user[k] != '/'
    requires rest == [] || rest[0] == '/'
    ensures GithubUser("https://" + Host + user + rest) == Some(user)
  {
    var url := "https://" + Host + user + rest;
    var j := 8 + |Host|;
    assert url[8..j] == Host;
    assert url[j] == user[0];
    assert UserAt(url, 8);
    forall i: nat | i < 8 ensures !UserAt(url, i) {
      assert url[i] == "https://"[i] != 'g';
      assert url[i..i + |Host|][0] == url[i];
    }
    assert FindUser(url, 0) == Some(8);
    RunEndOfUser(url, j, user, rest);
    assert url[j..j + |user|] == user;
  }

  /** The run from `j` ends at `m` when every character before `m` is not `/` and `m` is the
      end of the URL or a `/`. */
  lemma {:induction false} RunEndAt(url: string, j: nat, m: nat)
    requires j <= m <= |url|
    requires forall k :: j <= k < m ==> url[k] != '/'
    requires m == |url| || url[m] == '/'
    ensures RunEnd(url, j) == m
    decreases m - j
  {
    if j < m {
      RunEndAt(url, j + 1, m);
    }
  }

  lemma RunEndOfUser(url: string, j: nat, user: string, rest: string)
    requires j <= |url| && url[j..] == user + rest
    requires forall k :: 0 <= k < |user| ==> user[k] != '/'
    requires rest == [] || rest[0] == '/'
    ensures RunEnd(url, j) == j + |user|
  {
    forall k | j <= k < j + |user| ensures url[k] != '/' {
      assert url[k] == url[j..][k - j];
    }
    if rest != [] {
      assert url[j + |user|] == url[j..][|user|];
    }
    RunEndAt(url, j, j + |user|);
  }

  /** A host that is not followed by a user does not match: `github.com/` at the end of the
      URL, or followed by `/`, gives no user. */
  lemma NoUserAfterBareHost()
    ensures GithubUser("https://github.com/") == None
    ensures GithubUser("https://github.com//x") == None
  {
    var a := "https://github.com/";
    forall i: nat ensures !UserAt(a, i) {
      if i + |Host| < |a| { assert a[i..i + |Host|][0] == a[i]; }
    }
    var b := "https://github.com//x";
    forall i: nat ensures !UserAt(b, i) {
      if i + |Host| < |b| && i != 8 { assert b[i..i + |Host|][0] == b[i]; }
    }
  }
}
