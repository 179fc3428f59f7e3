/** `GetCanonicalizedUrl`: split the URL, run the host passes and the
    remainder passes in their fixed order, and recombine, adding a root `/`
    when nothing is left of the remainder. */
module Canonicalization {
  import opened Wrappers
  import opened Splitter
  import opened HostNormalizer
  import opened RemainderNormalizer

  /** The only failure: `GetCanonicalizedUrl` is given a null reference. */
  datatype UrlError = NullUrl

  /** The canonical form of a (non-null) URL, pass by pass. */
  function CanonicalizedUrl(url: string): string {
    var parts := Split(url);
    var hostName := NormalizeHost(parts.host);
    var remainder := RemoveFragmentIdentifier(Resolved(parts.remainder));
    if remainder == [] then hostName + "/" else hostName + remainder
  }

  /** `GetCanonicalizedUrl`: the null check, then the passes applied one after the
      other to `hostName` and `remainder`, then the combination. */
  method GetCanonicalizedUrl(url: Option<string>) returns (r: Result<string, UrlError>)
    ensures url.None? ==> r == Failure(NullUrl)
    ensures url.Some? ==> r == Success(CanonicalizedUrl(url.value))
  {
    if url.None? {
      return Failure(NullUrl);
    }
    var parts := Split(url.value);
    var hostName := parts.host;
    var remainder := parts.remainder;

    hostName := RemoveSpecialCharacters(hostName);
    hostName := ReplaceConsecutiveDots(hostName);
    hostName := NormalizeIPAddress(hostName);
    hostName := EscapeSpecialChars(hostName);
    hostName := ToLower(hostName);

    remainder := ResolveSequences(remainder);
    remainder := RemoveFragmentIdentifier(remainder);

    CanonicalizedUrlOfParts(url.value, hostName, remainder);
    if remainder == [] {
      hostName := hostName + "/";
      assert hostName + remainder == hostName;
    }
    r := Success(hostName + remainder);
  }

  lemma CanonicalizedUrlOfParts(url: string, hostName: string, remainder: string)
    requires hostName == NormalizeHost(Split(url).host)
    requires remainder == RemoveFragmentIdentifier(Resolved(Split(url).remainder))
    ensures CanonicalizedUrl(url) == if remainder == [] then hostName + "/" else hostName + remainder
  {
  }

  /** The split remainder is made of letters, digits and `-` only, so both
      remainder passes leave it alone: the canonical URL is the canonical
      host followed by the split remainder, or by `/` when that is empty. */
  lemma CanonicalizedUrlShape(url: string)
    ensures var parts := Split(url);
      CanonicalizedUrl(url) == NormalizeHost(parts.host) + (if parts.remainder == [] then "/" else parts.remainder)
  {
    var rem := Split(url).remainder;
    assert forall i :: 0 <= i < |rem| ==> rem[i] != '/' && rem[i] != '#' by {
      forall i | 0 <= i < |rem| ensures rem[i] != '/' && rem[i] != '#' {
        assert IsPathChar(rem[i]);
      }
    }
    ResolvedWithoutSlash(rem);
  }

  /** The shape of the canonical URL: a canonical host, then letters,
      digits and `-`, and a `/` only as its last character, there exactly
      when the remainder came out empty. */
  predicate WellShaped(r: string, remainderEmpty: bool) {
    && r != []
    && (forall i :: 0 <= i < |r| ==> IsCanonicalHostChar(r[i]) || IsPathChar(r[i]) || r[i] == '/')
    && (forall i :: 0 <= i < |r| - 1 ==> r[i] != '/')
    && (r[|r| - 1] == '/' <==> remainderEmpty)
  }

  lemma CombinedShape(h: string, remainder: string)
    requires forall i :: 0 <= i < |h| ==> IsCanonicalHostChar(h[i])
    requires forall i :: 0 <= i < |remainder| ==> IsPathChar(remainder[i])
    ensures WellShaped(h + (if remainder == [] then "/" else remainder), remainder == [])
  {
    var tail := if remainder == [] then "/" else remainder;
    var r := h + tail;
    forall i | 0 <= i < |r|
      ensures IsCanonicalHostChar(r[i]) || IsPathChar(r[i]) || r[i] == '/'
      ensures i < |r| - 1 ==> r[i] != '/'
    {
      if i < |h| {
        assert r[i] == h[i];
      } else {
        assert r[i] == tail[i - |h|];
      }
    }
    assert r[|r| - 1] == tail[|tail| - 1];
  }

  lemma CanonicalizedUrlChars(url: string)
    ensures WellShaped(CanonicalizedUrl(url), Split(url).remainder == [])
  {
    var parts := Split(url);
    CanonicalizedUrlShape(url);
    CombinedShape(NormalizeHost(parts.host), parts.remainder);
  }

  /** A URL with an authority keeps only its host: the remainder group is
      always empty then, so the result is the canonical host and `/`. */
  lemma CanonicalizedUrlWithAuthority(url: string)
    requires url != [] && url[0] != '&'
    requires HasAuthority(url)
    ensures CanonicalizedUrl(url) == NormalizeHost(Split(url).host) + "/"
  {
    SplitWithAuthority(url);
    CanonicalizedUrlShape(url);
  }

  /** An empty URL, or one starting with `&`, fails to match and gives `/`. */
  lemma CanonicalizedUrlOfNoMatch(url: string)
    requires url == [] || url[0] == '&'
    ensures CanonicalizedUrl(url) == "/"
  {
    CanonicalizedUrlShape(url);
    assert NormalizeHost([]) == [];
  }
}
