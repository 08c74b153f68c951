/**
 * The `netloc` component that `urllib.parse.urlparse` extracts from a URL:
 * after an optional `scheme:` prefix, the text that follows `//` up to the
 * first '/', '?' or '#'.  `urlparse` raises `ValueError` when that text
 * holds one square bracket without its partner.
 */
module UrlParse {

  import opened Results
  import opened PyStrings

  /** The characters `urllib.parse.scheme_chars` allows in a scheme. */
  predicate IsSchemeChar(c: char)
  {
    'a' <= c <= 'z' || 'A' <= c <= 'Z' || '0' <= c <= '9' || c == '+' || c == '-' || c == '.'
  }

  predicate IsAsciiLetter(c: char)
  {
    'a' <= c <= 'z' || 'A' <= c <= 'Z'
  }

  /** A scheme `urlsplit` splits off: an ASCII letter followed by scheme characters. */
  predicate IsScheme(s: string)
  {
    |s| > 0 && IsAsciiLetter(s[0]) && forall j :: 0 <= j < |s| ==> IsSchemeChar(s[j])
  }

  /** The characters that end the network location. */
  predicate IsNetlocDelimiter(c: char)
  {
    c == '/' || c == '?' || c == '#'
  }

  /**
   * What `urlsplit` goes on parsing once the scheme is removed: the scheme is
   * the text before the first ':' when that text is non-empty, begins with an
   * ASCII letter and is made of scheme characters only.
   */
  function AfterScheme(url: string): (rest: string)
    ensures |rest| <= |url| && rest == url[|url| - |rest|..]
  {
    var i := Find(url, ':');
    if i > 0 && IsAsciiLetter(url[0]) && forall j :: 0 <= j < i ==> IsSchemeChar(url[j]) then url[i + 1..] else url
  }

  /** The `_splitnetloc` search: the first index from `i` on holding a delimiter, or the length. */
  function NetlocEnd(s: string, i: nat): (e: nat)
    requires i <= |s|
    ensures i <= e <= |s|
    ensures forall j :: i <= j < e ==> !IsNetlocDelimiter(s[j])
    ensures e < |s| ==> IsNetlocDelimiter(s[e])
    decreases |s| - i
  {
    if i == |s| || IsNetlocDelimiter(s[i]) then i else NetlocEnd(s, i + 1)
  }

  /** The search stops at the first delimiter, or at the end. */
  lemma {:induction false} NetlocEndAt(s: string, i: nat, e: nat)
    requires i <= e <= |s|
    requires forall j :: i <= j < e ==> !IsNetlocDelimiter(s[j])
    requires e == |s| || IsNetlocDelimiter(s[e])
    ensures NetlocEnd(s, i) == e
    decreases e - i
  {
    if i < e {
      NetlocEndAt(s, i + 1, e);
    }
  }

  /** The condition under which `urlsplit` raises "Invalid IPv6 URL". */
  predicate UnbalancedBrackets(n: string)
  {
    ('[' in n && ']' !in n) || (']' in n && '[' !in n)
  }

  /** `urlparse(url).netloc`, or the message of the `ValueError` it raises. */
  function Netloc(url: string): (r: Result<string, string>)
    ensures r.Ok? ==> forall j :: 0 <= j < |r.value| ==> !IsNetlocDelimiter(r.value[j])
    ensures r.Err? <==> (var rest := AfterScheme(url);
                         |rest| >= 2 && rest[..2] == "//" && UnbalancedBrackets(rest[2..NetlocEnd(rest, 2)]))
    ensures r.Err? ==> r.error == "Invalid IPv6 URL"
    ensures r.Ok? && r.value != [] ==> (var rest := AfterScheme(url);
                                         |rest| >= 2 && rest[..2] == "//" && r.value == rest[2..NetlocEnd(rest, 2)])
  {
    var rest := AfterScheme(url);
    if |rest| >= 2 && rest[..2] == "//" then
      var n := rest[2..NetlocEnd(rest, 2)];
      if UnbalancedBrackets(n) then Err("Invalid IPv6 URL") else Ok(n)
    else Ok("")
  }

  /**
   * Text before ':' that does not begin with an ASCII letter is not a scheme,
   * so "1a://host" has no network location: it is parsed as a path.
   */
  lemma NoNetlocWithoutLetterScheme(url: string)
    requires |url| > 0 && !IsAsciiLetter(url[0]) && url[0] != '/'
    ensures Netloc(url) == Ok("")
  {
    assert AfterScheme(url) == url;
  }

  /**
   * A URL built as `scheme://host` followed by a path, query or fragment (or
   * nothing) has `host` as its network location.
   */
  lemma NetlocOfAuthority(scheme: string, host: string, tail: string)
    requires IsScheme(scheme)
    requires forall j :: 0 <= j < |host| ==> !IsNetlocDelimiter(host[j])
    requires !UnbalancedBrackets(host)
    requires tail == [] || IsNetlocDelimiter(tail[0])
    ensures Netloc(scheme + "://" + host + tail) == Ok(host)
  {
    AuthorityOf(scheme, host, tail);
  }

  /** The same URL with one square bracket missing its partner raises "Invalid IPv6 URL". */
  lemma NetlocRejectsUnbalanced(scheme: string, host: string, tail: string)
    requires IsScheme(scheme)
    requires forall j :: 0 <= j < |host| ==> !IsNetlocDelimiter(host[j])
    requires UnbalancedBrackets(host)
    requires tail == [] || IsNetlocDelimiter(tail[0])
    ensures Netloc(scheme + "://" + host + tail) == Err("Invalid IPv6 URL")
  {
    AuthorityOf(scheme, host, tail);
  }

  /** In `scheme://host` followed by a delimiter or nothing, the text after `//` up to the delimiter is `host`. */
  lemma AuthorityOf(scheme: string, host: string, tail: string)
    requires IsScheme(scheme)
    requires forall j :: 0 <= j < |host| ==> !IsNetlocDelimiter(host[j])
    requires tail == [] || IsNetlocDelimiter(tail[0])
    ensures var rest := AfterScheme(scheme + "://" + host + tail);
            |rest| >= 2 && rest[..2] == "//" && rest[2..NetlocEnd(rest, 2)] == host
  {
    var url := scheme + "://" + host + tail;
    var n := |scheme|;
    assert url[n] == ':';
    assert forall j :: 0 <= j < n ==> url[j] == scheme[j];
    assert Find(url, ':') == n;
    var rest := url[n + 1..];
    assert rest == "//" + host + tail;
    assert AfterScheme(url) == rest;
    assert forall j :: 2 <= j < 2 + |host| ==> rest[j] == host[j - 2];
    assert tail != [] ==> rest[2 + |host|] == tail[0];
    NetlocEndAt(rest, 2, 2 + |host|);
    assert rest[2..2 + |host|] == host;
  }
}
