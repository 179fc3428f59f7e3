/** The splitter behind `GetHostName` and `GetRemainder`: one partial match,
    anchored at the start, of the URI-reference pattern of Appendix B of
    RFC 2396 with the path narrowed to `[a-zA-Z0-9-]` and a leading
    "first character is not `&`" lookahead. Group 2 (authority) is the host,
    group 3 (path) is the remainder; query and fragment groups are dropped. */
module Splitter {
  import opened Text

  /** Characters of the scheme group `[^:/?#]`. */
  predicate IsSchemeChar(c: char) {
    c != ':' && c != '/' && c != '?' && c != '#'
  }

  /** Characters of the authority group `[^/?#]`. */
  predicate IsAuthorityChar(c: char) {
    c != '/' && c != '?' && c != '#'
  }

  /** Characters of the narrowed path group `[a-zA-Z0-9\-]`. */
  predicate IsPathChar(c: char) {
    ('a' <= c <= 'z') || ('A' <= c <= 'Z') || ('0' <= c <= '9') || c == '-'
  }

  datatype SplitResult = SplitResult(host: string, remainder: string)

  /** Where the text after the optional `scheme:` prefix begins. The scheme
      group is taken exactly when a non-empty run of scheme characters at the
      start is followed by `:`. */
  function HierarchicalStart(url: string): (k: nat)
    ensures k <= |url|
    ensures k > 0 ==> 2 <= k && url[k - 1] == ':' && forall i :: 0 <= i < k - 1 ==> IsSchemeChar(url[i])
  {
    var n := PrefixLength(IsSchemeChar, url);
    if 0 < n < |url| && url[n] == ':' then n + 1 else 0
  }

  /** No scheme is taken only when no `:` (after the first character) is
      preceded by scheme characters alone. */
  lemma NoScheme(url: string)
    requires HierarchicalStart(url) == 0
    ensures forall j :: 0 < j < |url| && url[j] == ':' ==> exists i :: 0 <= i < j && !IsSchemeChar(url[i])
  {
    var n := PrefixLength(IsSchemeChar, url);
    assert forall j :: 0 < j < |url| && url[j] == ':' ==> n < j && !IsSchemeChar(url[n]);
  }

  /** The `//` that introduces the authority group stands right after the scheme. */
  predicate HasAuthority(url: string) {
    var k := HierarchicalStart(url);
    k + 2 <= |url| && url[k] == '/' && url[k + 1] == '/'
  }

  /** Index just past the authority group (or the scheme, when there is no authority). */
  function AuthorityEnd(url: string): (a: nat)
    ensures HierarchicalStart(url) <= a <= |url|
  {
    var k := HierarchicalStart(url);
    if HasAuthority(url) then k + 2 + PrefixLength(IsAuthorityChar, url[k + 2..]) else k
  }

  /** Group 2 of a successful match: the authority, when `//` introduces one. */
  function HostGroup(url: string): (h: string)
    ensures forall i :: 0 <= i < |h| ==> IsAuthorityChar(h[i])
  {
    if HasAuthority(url) then
      var k := HierarchicalStart(url);
      RunSlice(IsAuthorityChar, url, k + 2, AuthorityEnd(url));
      url[k + 2..AuthorityEnd(url)]
    else []
  }

  /** Group 3 of a successful match: the run of path characters after the authority. */
  function PathGroup(url: string): (p: string)
    ensures forall i :: 0 <= i < |p| ==> IsPathChar(p[i])
  {
    var a := AuthorityEnd(url);
    RunSlice(IsPathChar, url, a, a + PrefixLength(IsPathChar, url[a..]));
    url[a..a + PrefixLength(IsPathChar, url[a..])]
  }

  /** Host (group 2) and remainder (group 3) of `url`. A failed match (empty
      input, or one that starts with `&`) gives two empty groups. */
  function Split(url: string): (r: SplitResult)
    ensures forall i :: 0 <= i < |r.host| ==> IsAuthorityChar(r.host[i])
    ensures forall i :: 0 <= i < |r.remainder| ==> IsPathChar(r.remainder[i])
    ensures url == [] || url[0] == '&' ==> r == SplitResult([], [])
  {
    if url == [] || url[0] == '&' then SplitResult([], [])
    else SplitResult(HostGroup(url), PathGroup(url))
  }

  /** What the match consumes before the path group: the optional
      `scheme:` and, when present, `//` and the host. */
  function MatchedHead(url: string): string
    requires url != [] && url[0] != '&'
  {
    var k := HierarchicalStart(url);
    if HasAuthority(url) then url[..k] + "//" + Split(url).host else url[..k]
  }

  /** The layout of a successful match, `[scheme ":"] ["//" host] remainder`,
      with both groups as long as their character classes allow. */
  lemma SplitLayout(url: string)
    requires url != [] && url[0] != '&'
    ensures MatchedHead(url) + Split(url).remainder <= url
    ensures !HasAuthority(url) ==> Split(url).host == []
    ensures HasAuthority(url) && |MatchedHead(url)| < |url| ==> !IsAuthorityChar(url[|MatchedHead(url)|])
    ensures |MatchedHead(url)| + |Split(url).remainder| < |url| ==>
      !IsPathChar(url[|MatchedHead(url)| + |Split(url).remainder|])
  {
    var a := AuthorityEnd(url);
    HeadIsPrefix(url);
    if HasAuthority(url) {
      AuthorityStop(url, HierarchicalStart(url) + 2, a);
    }
    RemainderAtAuthorityEnd(url);
    RemainderStop(url, a, Split(url).remainder);
  }

  /** The matched head is the text before `AuthorityEnd`. */
  lemma HeadIsPrefix(url: string)
    requires url != [] && url[0] != '&'
    ensures MatchedHead(url) == url[..AuthorityEnd(url)]
  {
    var k := HierarchicalStart(url);
    var a := AuthorityEnd(url);
    if HasAuthority(url) {
      assert Split(url).host == url[k + 2..a];
      AuthoritySlices(url, k, a);
    }
  }

  /** The remainder group is the run of path characters at `AuthorityEnd`. */
  lemma RemainderAtAuthorityEnd(url: string)
    requires url != [] && url[0] != '&'
    ensures Split(url).remainder == url[AuthorityEnd(url)..AuthorityEnd(url) + PrefixLength(IsPathChar, url[AuthorityEnd(url)..])]
  {
  }

  lemma AuthoritySlices(url: string, k: nat, a: nat)
    requires k + 2 <= a <= |url| && url[k] == '/' && url[k + 1] == '/'
    ensures url[..k] + "//" + url[k + 2..a] == url[..a]
  {
    assert url[..k + 2] == url[..k] + "//";
    assert url[..a] == url[..k + 2] + url[k + 2..a];
  }

  /** The run of authority characters from `start` ends at `a`. */
  lemma AuthorityStop(url: string, start: nat, a: nat)
    requires start <= |url| && a == start + PrefixLength(IsAuthorityChar, url[start..])
    ensures a < |url| ==> !IsAuthorityChar(url[a])
  {
    if a < |url| {
      assert url[a] == url[start..][a - start];
    }
  }

  /** The remainder group starts at `a` and is followed by a non-path character. */
  lemma RemainderStop(url: string, a: nat, remainder: string)
    requires a <= |url| && remainder == url[a..a + PrefixLength(IsPathChar, url[a..])]
    ensures url[..a] + remainder <= url
    ensures a + |remainder| < |url| ==> !IsPathChar(url[a + |remainder|])
  {
    var p := PrefixLength(IsPathChar, url[a..]);
    assert url[..a] + remainder == url[..a + p];
    if a + p < |url| {
      assert url[a + p] == url[a..][p];
    }
  }

  /** The authority group stops only at `/`, `?`, `#` or the end, and none
      of these can start the narrowed path group: a URL with an authority
      always has an empty remainder. */
  lemma SplitWithAuthority(url: string)
    requires url != [] && url[0] != '&'
    requires HasAuthority(url)
    ensures Split(url).remainder == []
  {
    var a := AuthorityEnd(url);
    var k := HierarchicalStart(url);
    if a < |url| {
      assert url[a] == url[k + 2..][a - (k + 2)];
      assert !IsAuthorityChar(url[a]);
      assert url[a..][0] == url[a];
    }
  }

  /** Read the other way: `scheme "://" host` followed by a character that
      ends the authority splits into that host and an empty remainder. */
  lemma SplitOfAuthorityUrl(scheme: string, host: string, rest: string)
    requires scheme != [] && scheme[0] != '&'
    requires forall i :: 0 <= i < |scheme| ==> IsSchemeChar(scheme[i])
    requires forall i :: 0 <= i < |host| ==> IsAuthorityChar(host[i])
    requires rest == [] || !IsAuthorityChar(rest[0])
    ensures Split(scheme + "://" + host + rest) == SplitResult(host, [])
  {
    var url := scheme + "://" + host + rest;
    var n := |scheme|;
    SchemeThenAuthority(scheme, host + rest);
    assert url == scheme + "://" + (host + rest);
    AuthorityRun(host, rest);
    assert url[n + 3..] == host + rest;
    assert AuthorityEnd(url) == n + 3 + |host|;
    assert url[n + 3..n + 3 + |host|] == host;
    SplitWithAuthority(url);
  }

  /** A non-empty scheme followed by `://` is read as scheme and authority. */
  lemma SchemeThenAuthority(scheme: string, tail: string)
    requires scheme != []
    requires forall i :: 0 <= i < |scheme| ==> IsSchemeChar(scheme[i])
    ensures var url := scheme + "://" + tail;
      HierarchicalStart(url) == |scheme| + 1 && HasAuthority(url)
  {
    var url := scheme + "://" + tail;
    var n := |scheme|;
    assert forall i :: 0 <= i < n ==> url[i] == scheme[i];
    assert url[n] == ':' && url[n + 1] == '/' && url[n + 2] == '/';
    PrefixLengthUnique(IsSchemeChar, url, n);
  }

  /** The authority run of `host + rest` is exactly `host`. */
  lemma AuthorityRun(host: string, rest: string)
    requires forall i :: 0 <= i < |host| ==> IsAuthorityChar(host[i])
    requires rest == [] || !IsAuthorityChar(rest[0])
    ensures PrefixLength(IsAuthorityChar, host + rest) == |host|
  {
    var s := host + rest;
    assert forall i :: 0 <= i < |host| ==> s[i] == host[i];
    assert |host| < |s| ==> s[|host|] == rest[0];
    PrefixLengthUnique(IsAuthorityChar, s, |host|);
  }
}
