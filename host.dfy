/** The host passes of `GetCanonicalizedUrl`, in the order the pipeline
    applies them: `RemoveSpecialCharacters`, `ReplaceConsecutiveDots`,
    `NormalizeIPAddress`, `EscapeSpecialChars` and lower-casing. */
module HostNormalizer {
  import opened Text

  /** `[\x00-\x1f\x7f-\xff]`: control characters and the range U+007F to U+00FF. */
  predicate IsSpecialChar(c: char) {
    c as int <= 0x1F || 0x7F <= c as int <= 0xFF
  }

  predicate IsNotSpecialChar(c: char) {
    !IsSpecialChar(c)
  }

  predicate IsDot(c: char) {
    c == '.'
  }

  predicate IsNotDot(c: char) {
    c != '.'
  }

  /** `[0-9A-Za-z\.\-]`: what `EscapeSpecialChars` keeps. */
  predicate IsHostChar(c: char) {
    ('0' <= c <= '9') || ('A' <= c <= 'Z') || ('a' <= c <= 'z') || c == '.' || c == '-'
  }

  /** What a canonical host is made of: `[a-z0-9.-]`. */
  predicate IsCanonicalHostChar(c: char) {
    ('0' <= c <= '9') || ('a' <= c <= 'z') || c == '.' || c == '-'
  }

  predicate NoEdgeDots(s: string) {
    s == [] || (s[0] != '.' && s[|s| - 1] != '.')
  }

  predicate NoDoubleDot(s: string) {
    NoRepeat(s, '.')
  }

  /** The `^\.+` alternative: drops the leading run of dots. */
  function TrimLeadingDots(s: string): (r: string)
    ensures |r| <= |s| && r == s[|s| - |r|..]
    ensures r == [] || r[0] != '.'
    ensures forall i :: 0 <= i < |s| - |r| ==> s[i] == '.'
  {
    s[PrefixLength(IsDot, s)..]
  }

  /** The `\.+$` alternative: drops the trailing run of dots. */
  function TrimTrailingDots(s: string): (r: string)
    ensures r <= s
    ensures r == [] || r[|r| - 1] != '.'
    ensures forall i :: |r| <= i < |s| ==> s[i] == '.'
    decreases |s|
  {
    if s != [] && s[|s| - 1] == '.' then TrimTrailingDots(s[..|s| - 1]) else s
  }

  /** Trimming dots off both ends leaves the other characters as they were. */
  lemma TrimDotsKeepsNonDots(s: string)
    ensures Filter(IsNotDot, TrimTrailingDots(TrimLeadingDots(s))) == Filter(IsNotDot, s)
  {
    TrimLeadingDotsKeepsNonDots(s);
    TrimTrailingDotsKeepsNonDots(TrimLeadingDots(s));
  }

  lemma TrimLeadingDotsKeepsNonDots(s: string)
    ensures Filter(IsNotDot, TrimLeadingDots(s)) == Filter(IsNotDot, s)
  {
    var leading := TrimLeadingDots(s);
    var head := s[..|s| - |leading|];
    assert s == head + leading;
    assert forall i :: 0 <= i < |head| ==> !IsNotDot(head[i]) by {
      forall i | 0 <= i < |head| ensures !IsNotDot(head[i]) {
        assert head[i] == s[i];
      }
    }
    FilterRejectedPrefix(IsNotDot, head, leading);
  }

  lemma TrimTrailingDotsKeepsNonDots(s: string)
    ensures Filter(IsNotDot, TrimTrailingDots(s)) == Filter(IsNotDot, s)
  {
    var r := TrimTrailingDots(s);
    var tail := s[|r|..];
    assert s == r + tail;
    assert forall i :: 0 <= i < |tail| ==> !IsNotDot(tail[i]) by {
      forall i | 0 <= i < |tail| ensures !IsNotDot(tail[i]) {
        assert tail[i] == s[|r| + i];
      }
    }
    FilterRejectedSuffix(IsNotDot, r, tail);
  }

  /** `RemoveSpecialCharacters`: `[\x00-\x1f\x7f-\xff]+` deletes every special
      character, then `^\.+|\.+$` deletes the leading and the trailing run of
      dots. */
  function RemoveSpecialCharacters(hostname: string): (r: string)
    ensures forall i :: 0 <= i < |r| ==> !IsSpecialChar(r[i])
    ensures NoEdgeDots(r)
  {
    TrimTrailingDots(TrimLeadingDots(Filter(IsNotSpecialChar, hostname)))
  }

  /** The pass only deletes, and apart from dots what remains is exactly the
      host without its special characters. */
  lemma RemoveSpecialCharactersDeletesOnly(hostname: string)
    ensures IsSubsequence(RemoveSpecialCharacters(hostname), hostname)
    ensures Filter(IsNotDot, RemoveSpecialCharacters(hostname)) == Filter(IsNotDot, Filter(IsNotSpecialChar, hostname))
  {
    var filtered := Filter(IsNotSpecialChar, hostname);
    var leading := TrimLeadingDots(filtered);
    var r := TrimTrailingDots(leading);
    var n := |filtered| - |leading|;
    assert filtered[n..] == leading;
    SubsequenceRefl(leading);
    SubsequenceDrop(leading, filtered, n);
    assert leading[..|r|] == r;
    PrefixIsSubsequence(leading, |r|);
    SubsequenceTrans(r, leading, filtered);
    FilterDeletesRejected(IsNotSpecialChar, hostname);
    SubsequenceTrans(r, filtered, hostname);
    TrimDotsKeepsNonDots(filtered);
  }

  lemma RemoveSpecialCharactersIdempotent(hostname: string)
    ensures RemoveSpecialCharacters(RemoveSpecialCharacters(hostname)) == RemoveSpecialCharacters(hostname)
  {
    var r := RemoveSpecialCharacters(hostname);
    FilterKeepsAll(IsNotSpecialChar, r);
    assert r != [] ==> !IsDot(r[0]);
    assert PrefixLength(IsDot, r) == 0;
    assert TrimLeadingDots(r) == r;
    assert TrimTrailingDots(r) == r;
  }

  /** `ReplaceConsecutiveDots`: `[\.]+` replaces every run of dots by a single dot. */
  function ReplaceConsecutiveDots(hostname: string): (r: string)
    ensures NoDoubleDot(r)
    ensures (r != [] && r[0] == '.') <==> (hostname != [] && hostname[0] == '.')
    ensures (r != [] && r[|r| - 1] == '.') <==> (hostname != [] && hostname[|hostname| - 1] == '.')
    decreases |hostname|
  {
    if hostname == [] then []
    else if hostname[0] == '.' then
      var n := PrefixLength(IsDot, hostname);
      var rest := ReplaceConsecutiveDots(hostname[n..]);
      assert rest != [] ==> hostname[|hostname| - 1] == hostname[n..][|hostname| - n - 1];
      "." + rest
    else
      [hostname[0]] + ReplaceConsecutiveDots(hostname[1..])
  }

  /** Only dots are touched: the other characters stay, in their order, and
      the result is a subsequence of the host. */
  lemma {:induction false} ReplaceConsecutiveDotsDeletesDots(hostname: string)
    ensures IsSubsequence(ReplaceConsecutiveDots(hostname), hostname)
    ensures Filter(IsNotDot, ReplaceConsecutiveDots(hostname)) == Filter(IsNotDot, hostname)
    decreases |hostname|
  {
    if hostname == [] {
    } else if hostname[0] == '.' {
      var n := PrefixLength(IsDot, hostname);
      var rest := ReplaceConsecutiveDots(hostname[n..]);
      ReplaceConsecutiveDotsDeletesDots(hostname[n..]);
      FilterSkipsRejected(IsNotDot, hostname, n);
      assert hostname[1..][n - 1..] == hostname[n..];
      SubsequenceDrop(rest, hostname[1..], n - 1);
      assert ("." + rest)[1..] == rest;
    } else {
      var rest := ReplaceConsecutiveDots(hostname[1..]);
      ReplaceConsecutiveDotsDeletesDots(hostname[1..]);
      assert ([hostname[0]] + rest)[1..] == rest;
    }
  }

  /** A host without a double dot is left as it is. */
  lemma {:induction false} ReplaceConsecutiveDotsKeepsClean(hostname: string)
    requires NoDoubleDot(hostname)
    ensures ReplaceConsecutiveDots(hostname) == hostname
    decreases |hostname|
  {
    if hostname != [] {
      var t := hostname[1..];
      assert NoDoubleDot(t) by {
        forall i | 0 <= i < |t| - 1 ensures !(t[i] == '.' && t[i + 1] == '.') {
          assert t[i] == hostname[i + 1] && t[i + 1] == hostname[i + 2];
        }
      }
      ReplaceConsecutiveDotsKeepsClean(t);
      assert hostname == [hostname[0]] + t;
      if hostname[0] == '.' {
        assert |hostname| > 1 ==> hostname[1] != '.';
        PrefixLengthUnique(IsDot, hostname, 1);
      }
    }
  }

  lemma ReplaceConsecutiveDotsIdempotent(hostname: string)
    ensures ReplaceConsecutiveDots(ReplaceConsecutiveDots(hostname)) == ReplaceConsecutiveDots(hostname)
  {
    ReplaceConsecutiveDotsKeepsClean(ReplaceConsecutiveDots(hostname));
  }

  /** Each run of dots, however long, becomes exactly one `.`: a run that
      stands between two non-dot stretches is replaced, not deleted, and
      the text on both sides is treated on its own. */
  lemma {:induction false} ReplaceConsecutiveDotsRun(p: string, d: string, t: string)
    requires p == [] || p[|p| - 1] != '.'
    requires d != [] && forall i :: 0 <= i < |d| ==> d[i] == '.'
    requires t == [] || t[0] != '.'
    ensures ReplaceConsecutiveDots(p + d + t) == ReplaceConsecutiveDots(p) + "." + ReplaceConsecutiveDots(t)
    decreases |p|
  {
    var r, x := d + t, "." + ReplaceConsecutiveDots(t);
    AppendAssoc(p, d, t);
    AppendAssoc(ReplaceConsecutiveDots(p), ".", ReplaceConsecutiveDots(t));
    if p == [] {
      assert p + r == r && [] + x == x;
      DotRunAtFront(d, t);
    } else if p[0] != '.' {
      var q := p[1..];
      ReplaceConsecutiveDotsRun(q, d, t);
      AppendAssoc(q, d, t);
      AppendAssoc(ReplaceConsecutiveDots(q), ".", ReplaceConsecutiveDots(t));
      RunAfterNonDot(p, r, x);
    } else {
      var n := PrefixLength(IsDot, p);
      assert n < |p|;
      var q := p[n..];
      ReplaceConsecutiveDotsRun(q, d, t);
      AppendAssoc(q, d, t);
      AppendAssoc(ReplaceConsecutiveDots(q), ".", ReplaceConsecutiveDots(t));
      RunAfterDots(p, r, x, n);
    }
  }

  /** Induction step of `ReplaceConsecutiveDotsRun`: a non-dot in front is copied. */
  lemma RunAfterNonDot(p: string, r: string, x: string)
    requires p != [] && p[0] != '.'
    requires ReplaceConsecutiveDots(p[1..] + r) == ReplaceConsecutiveDots(p[1..]) + x
    ensures ReplaceConsecutiveDots(p + r) == ReplaceConsecutiveDots(p) + x
  {
    DropOfConcat(p, r, 1);
    AppendAssoc([p[0]], ReplaceConsecutiveDots(p[1..]), x);
  }

  /** Induction step of `ReplaceConsecutiveDotsRun`: the leading dot run of
      `p` becomes one `.`. */
  lemma RunAfterDots(p: string, r: string, x: string, n: nat)
    requires n == PrefixLength(IsDot, p) && 0 < n < |p|
    requires ReplaceConsecutiveDots(p[n..] + r) == ReplaceConsecutiveDots(p[n..]) + x
    ensures ReplaceConsecutiveDots(p + r) == ReplaceConsecutiveDots(p) + x
  {
    LeadingDotsOfPrefix(p, r, n);
    DropOfConcat(p, r, n);
    AppendAssoc(".", ReplaceConsecutiveDots(p[n..]), x);
  }

  /** A dot run at the front becomes one `.` before the rest. */
  lemma DotRunAtFront(d: string, t: string)
    requires d != [] && forall i :: 0 <= i < |d| ==> d[i] == '.'
    requires t == [] || t[0] != '.'
    ensures ReplaceConsecutiveDots(d + t) == "." + ReplaceConsecutiveDots(t)
  {
    DotRunLength(d, t);
    assert (d + t)[|d|..] == t;
  }

  lemma DotRunLength(d: string, t: string)
    requires d != [] && forall i :: 0 <= i < |d| ==> d[i] == '.'
    requires t == [] || t[0] != '.'
    ensures (d + t)[0] == '.' && PrefixLength(IsDot, d + t) == |d|
  {
    var s := d + t;
    assert forall i :: 0 <= i < |d| ==> IsDot(s[i]) by {
      forall i | 0 <= i < |d| ensures IsDot(s[i]) {
        assert s[i] == d[i];
      }
    }
    assert |d| < |s| ==> s[|d|] == t[0];
    PrefixLengthUnique(IsDot, s, |d|);
  }

  /** Dropping part of `p` from the front of `p + r`. */
  lemma DropOfConcat(p: string, r: string, n: nat)
    requires 0 < n <= |p|
    ensures (p + r)[0] == p[0] && (p + r)[n..] == p[n..] + r
  {
  }

  /** The leading dot run of `p` is the leading dot run of `p + rest` when
      `p` does not consist of dots only. */
  lemma LeadingDotsOfPrefix(p: string, rest: string, n: nat)
    requires n == PrefixLength(IsDot, p) && n < |p|
    ensures PrefixLength(IsDot, p + rest) == n
  {
    var s := p + rest;
    assert forall i :: 0 <= i < n ==> s[i] == p[i];
    assert s[n] == p[n];
    PrefixLengthUnique(IsDot, s, n);
  }

  /** `NormalizeIPAddress`: IP-address hosts are deliberately not canonicalized. */
  function NormalizeIPAddress(hostname: string): (r: string)
    ensures r == hostname
  {
    hostname
  }

  /** `EscapeSpecialChars`: `[^0-9A-Za-z\.\-]+` deletes every character outside
      `[0-9A-Za-z.-]`. */
  function EscapeSpecialChars(hostname: string): (r: string)
    ensures forall i :: 0 <= i < |r| ==> IsHostChar(r[i])
    ensures IsSubsequence(r, hostname)
    ensures forall c :: IsHostChar(c) ==> multiset(r)[c] == multiset(hostname)[c]
    ensures (forall i :: 0 <= i < |hostname| ==> IsHostChar(hostname[i])) ==> r == hostname
  {
    FilterDeletesRejected(IsHostChar, hostname);
    if forall i :: 0 <= i < |hostname| ==> IsHostChar(hostname[i]) then
      FilterKeepsAll(IsHostChar, hostname);
      Filter(IsHostChar, hostname)
    else
      Filter(IsHostChar, hostname)
  }

  /** ASCII lower-casing of one character. */
  function LowerChar(c: char): (r: char)
    ensures !('A' <= r <= 'Z')
    ensures 'A' <= c <= 'Z' ==> r as int == c as int + 32
    ensures !('A' <= c <= 'Z') ==> r == c
  {
    if 'A' <= c <= 'Z' then (c as int + 32) as char else c
  }

  /** The final `ToLower` of `GetCanonicalizedUrl`, on ASCII letters. */
  function ToLower(s: string): (r: string)
    ensures |r| == |s|
    ensures forall i :: 0 <= i < |s| ==> r[i] == LowerChar(s[i])
    decreases |s|
  {
    if s == [] then [] else [LowerChar(s[0])] + ToLower(s[1..])
  }

  /** The host passes of `GetCanonicalizedUrl`, in their order. The canonical host is made
      of `a-z`, `0-9`, `.` and `-` only. */
  function NormalizeHost(hostname: string): (r: string)
    ensures forall i :: 0 <= i < |r| ==> IsCanonicalHostChar(r[i])
  {
    ToLower(EscapeSpecialChars(NormalizeIPAddress(ReplaceConsecutiveDots(RemoveSpecialCharacters(hostname)))))
  }

  /** The passes only delete characters or lower-case them: up to case, the
      canonical host is a subsequence of the host. */
  lemma NormalizeHostDeletesOnly(hostname: string)
    ensures var kept := EscapeSpecialChars(NormalizeIPAddress(ReplaceConsecutiveDots(RemoveSpecialCharacters(hostname))));
      IsSubsequence(kept, hostname) && NormalizeHost(hostname) == ToLower(kept)
  {
    var a := RemoveSpecialCharacters(hostname);
    var b := ReplaceConsecutiveDots(a);
    var d := EscapeSpecialChars(NormalizeIPAddress(b));
    RemoveSpecialCharactersDeletesOnly(hostname);
    ReplaceConsecutiveDotsDeletesDots(a);
    SubsequenceTrans(b, a, hostname);
    SubsequenceTrans(d, b, hostname);
  }

  /** Before the escape pass the host is free of edge dots and double dots. */
  lemma DotPassesClean(hostname: string)
    ensures var d := ReplaceConsecutiveDots(RemoveSpecialCharacters(hostname));
      NoEdgeDots(d) && NoDoubleDot(d) && forall i :: 0 <= i < |d| ==> !IsSpecialChar(d[i])
  {
    var a := RemoveSpecialCharacters(hostname);
    var d := ReplaceConsecutiveDots(a);
    ReplaceConsecutiveDotsDeletesDots(a);
    SubsequenceMembers(d, a);
  }

  /** A host free of special characters and edge dots passes unchanged. */
  lemma RemoveSpecialCharactersKeepsClean(hostname: string)
    requires forall i :: 0 <= i < |hostname| ==> !IsSpecialChar(hostname[i])
    requires NoEdgeDots(hostname)
    ensures RemoveSpecialCharacters(hostname) == hostname
  {
    FilterKeepsAll(IsNotSpecialChar, hostname);
    assert PrefixLength(IsDot, hostname) == 0;
  }

  /** The escape pass deletes a rejected character and keeps its neighbours. */
  lemma EscapeSpecialCharsDeletes(p: string, c: char, t: string)
    requires forall i :: 0 <= i < |p| ==> IsHostChar(p[i])
    requires forall i :: 0 <= i < |t| ==> IsHostChar(t[i])
    requires !IsHostChar(c)
    ensures EscapeSpecialChars(p + [c] + t) == p + t
  {
    FilterKeepsAll(IsHostChar, p);
    FilterKeepsAll(IsHostChar, t);
    FilterDeletesOne(IsHostChar, p, c, t);
  }

  /** Lower-casing leaves a canonical host alone. */
  lemma ToLowerKeepsCanonical(s: string)
    requires forall i :: 0 <= i < |s| ==> IsCanonicalHostChar(s[i])
    ensures ToLower(s) == s
  {
  }

  /** A host that the dot passes leave alone loses a stray character only
      in the escape pass, after the dots were handled. */
  lemma NormalizeHostDeletesStray(p: string, c: char, t: string)
    requires forall i :: 0 <= i < |p| ==> IsHostChar(p[i])
    requires forall i :: 0 <= i < |t| ==> IsHostChar(t[i])
    requires !IsHostChar(c) && !IsSpecialChar(c)
    requires NoEdgeDots(p + [c] + t) && NoDoubleDot(p + [c] + t)
    ensures NormalizeHost(p + [c] + t) == ToLower(p + t)
  {
    var h := p + [c] + t;
    NoSpecialAround(p, c, t);
    RemoveSpecialCharactersKeepsClean(h);
    ReplaceConsecutiveDotsKeepsClean(h);
    EscapeSpecialCharsDeletes(p, c, t);
  }

  lemma NoSpecialAround(p: string, c: char, t: string)
    requires forall i :: 0 <= i < |p| ==> IsHostChar(p[i])
    requires forall i :: 0 <= i < |t| ==> IsHostChar(t[i])
    requires !IsSpecialChar(c)
    ensures forall i :: 0 <= i < |p + [c] + t| ==> !IsSpecialChar((p + [c] + t)[i])
  {
    var h := p + [c] + t;
    forall i | 0 <= i < |h| ensures !IsSpecialChar(h[i]) {
      if i < |p| {
        assert h[i] == p[i];
      } else if i > |p| {
        assert h[i] == t[i - |p| - 1];
      }
    }
  }

  /** Lower-casing works character by character. */
  lemma ToLowerAppend(a: string, b: string)
    ensures ToLower(a + b) == ToLower(a) + ToLower(b)
  {
    var ab := a + b;
    var l, la, lb := ToLower(ab), ToLower(a), ToLower(b);
    var r := la + lb;
    assert |l| == |r|;
    forall i | 0 <= i < |l| ensures l[i] == r[i] {
      if i < |a| {
        assert ab[i] == a[i] && r[i] == la[i];
      } else {
        assert ab[i] == b[i - |a|] && r[i] == lb[i - |a|];
      }
    }
  }

  /** For a host already in lower case the stray character is all that goes. */
  lemma NormalizeHostDeletesStrayLower(p: string, c: char, t: string)
    requires forall i :: 0 <= i < |p| ==> IsCanonicalHostChar(p[i])
    requires forall i :: 0 <= i < |t| ==> IsCanonicalHostChar(t[i])
    requires !IsHostChar(c) && !IsSpecialChar(c)
    requires NoEdgeDots(p + [c] + t) && NoDoubleDot(p + [c] + t)
    ensures NormalizeHost(p + [c] + t) == p + t
  {
    NormalizeHostDeletesStray(p, c, t);
    assert forall i :: 0 <= i < |p + t| ==> IsCanonicalHostChar((p + t)[i]) by {
      forall i | 0 <= i < |p + t| ensures IsCanonicalHostChar((p + t)[i]) {
        if i < |p| { assert (p + t)[i] == p[i]; } else { assert (p + t)[i] == t[i - |p|]; }
      }
    }
    ToLowerKeepsCanonical(p + t);
  }

  /** The escape pass runs after the dot passes, so deleting a character can
      bring two dots together again: `a.$.b` becomes `a..b`. */
  lemma NormalizeHostCanJoinDots()
    ensures NormalizeHost("a." + "$" + ".b") == "a." + ".b"
  {
    NormalizeHostDeletesStrayLower("a.", '$', ".b");
  }

  /** Likewise a deleted first character can leave a dot at the edge:
      `$.a` becomes `.a`. */
  lemma NormalizeHostCanLeaveEdgeDot()
    ensures NormalizeHost("$" + ".a") == ".a"
  {
    NormalizeHostDeletesStrayLower("", '$', ".a");
    assert "" + "$" == "$" && "" + ".a" == ".a";
  }
}
