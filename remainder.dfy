/** The remainder passes of `GetCanonicalizedUrl`: `ResolveSequences`, a
    deliberately single-pass dot-segment elision, and
    `RemoveFragmentIdentifier`. */
module RemainderNormalizer {
  import opened Text

  // ---------------------------------------------------------------------
  // Step 1 of ResolveSequences: `(/\./)+` replaced by `/`.

  predicate StartsWithDotSegment(s: string) {
    |s| >= 3 && s[0] == '/' && s[1] == '.' && s[2] == '/'
  }

  /** Some position of `s` starts a `/./`: the pattern `(/\./)+` matches. */
  predicate HasDotSegment(s: string)
    decreases |s|
  {
    |s| >= 3 && (StartsWithDotSegment(s) || HasDotSegment(s[1..]))
  }

  /** The same, position by position. */
  lemma {:induction false} DotSegmentAt(s: string)
    ensures HasDotSegment(s) <==> exists i :: 0 <= i < |s| - 2 && s[i] == '/' && s[i + 1] == '.' && s[i + 2] == '/'
    decreases |s|
  {
    if |s| >= 3 {
      var t := s[1..];
      DotSegmentAt(t);
      assert forall i :: 0 <= i < |t| ==> t[i] == s[i + 1];
      if StartsWithDotSegment(s) {
        assert s[0] == '/' && s[1] == '.' && s[2] == '/';
      }
    }
  }

  /** The further repetitions of `/./` a greedy `(/\./)+` consumes. */
  function SkipDotSegments(s: string): (r: string)
    ensures |r| <= |s| && r == s[|s| - |r|..]
    ensures !StartsWithDotSegment(r)
    decreases |s|
  {
    if StartsWithDotSegment(s) then SkipDotSegments(s[3..]) else s
  }

  /** `k` back-to-back copies of `/./`. */
  function DotSegments(k: nat): string {
    if k == 0 then [] else "/./" + DotSegments(k - 1)
  }

  /** How many copies of `/./` the greedy `+` consumes at the front of `s`. */
  function DotSegmentCount(s: string): nat
    decreases |s|
  {
    if StartsWithDotSegment(s) then 1 + DotSegmentCount(s[3..]) else 0
  }

  /** What the skip removes is whole copies of `/./` and nothing else. */
  lemma {:induction false} SkipDotSegmentsRemovesCopies(s: string)
    ensures s == DotSegments(DotSegmentCount(s)) + SkipDotSegments(s)
    decreases |s|
  {
    if StartsWithDotSegment(s) {
      SkipDotSegmentsRemovesCopies(s[3..]);
      RemovesCopiesStep(s);
    } else {
      assert DotSegments(0) + s == s;
    }
  }

  /** The induction step of `SkipDotSegmentsRemovesCopies`. */
  lemma RemovesCopiesStep(s: string)
    requires StartsWithDotSegment(s)
    requires s[3..] == DotSegments(DotSegmentCount(s[3..])) + SkipDotSegments(s[3..])
    ensures s == DotSegments(DotSegmentCount(s)) + SkipDotSegments(s)
  {
    var d := DotSegments(DotSegmentCount(s[3..]));
    ReattachDotSegment(s, d, SkipDotSegments(s[3..]));
  }

  /** The greedy `+` consumes every one of the copies in front of `u`. */
  lemma {:induction false} SkipDotSegmentsOf(k: nat, u: string)
    requires !StartsWithDotSegment(u)
    ensures SkipDotSegments(DotSegments(k) + u) == u
  {
    if k == 0 {
      assert DotSegments(k) + u == u;
    } else {
      var d := DotSegments(k - 1);
      DetachDotSegment(d, u);
      assert DotSegments(k) + u == ("/./" + d) + u;
      SkipDotSegmentsOf(k - 1, u);
    }
  }

  /** ... and counts exactly that many. */
  lemma {:induction false} DotSegmentCountOf(k: nat, u: string)
    requires !StartsWithDotSegment(u)
    ensures DotSegmentCount(DotSegments(k) + u) == k
  {
    if k == 0 {
      assert DotSegments(k) + u == u;
    } else {
      var d := DotSegments(k - 1);
      DetachDotSegment(d, u);
      assert DotSegments(k) + u == ("/./" + d) + u;
      DotSegmentCountOf(k - 1, u);
    }
  }

  lemma ReattachDotSegment(s: string, d: string, r: string)
    requires StartsWithDotSegment(s) && s[3..] == d + r
    ensures s == ("/./" + d) + r
  {
    assert s == s[..3] + s[3..] && s[..3] == "/./";
  }

  lemma DetachDotSegment(d: string, u: string)
    ensures StartsWithDotSegment(("/./" + d) + u) && (("/./" + d) + u)[3..] == d + u
  {
  }

  function Collapse(s: string): (r: string)
    ensures |r| <= |s|
    decreases |s|
  {
    if s == [] then []
    else if StartsWithDotSegment(s) then "/" + Collapse(SkipDotSegments(s[3..]))
    else [s[0]] + Collapse(s[1..])
  }

  /** Collapsing only deletes characters. */
  lemma {:induction false} CollapseDeletesOnly(s: string)
    ensures IsSubsequence(Collapse(s), s)
    decreases |s|
  {
    if s == [] {
    } else if StartsWithDotSegment(s) {
      var t := SkipDotSegments(s[3..]);
      CollapseDeletesOnly(t);
      assert s[1..][|s| - 1 - |t|..] == t;
      SubsequenceDrop(Collapse(t), s[1..], |s| - 1 - |t|);
      assert ("/" + Collapse(t))[1..] == Collapse(t);
    } else {
      CollapseDeletesOnly(s[1..]);
      assert ([s[0]] + Collapse(s[1..]))[1..] == Collapse(s[1..]);
    }
  }

  /** Collapsing changes the string exactly when the pattern matches. */
  lemma {:induction false} CollapseChangesIff(s: string)
    ensures Collapse(s) == s <==> !HasDotSegment(s)
    ensures HasDotSegment(s) ==> |Collapse(s)| < |s|
    decreases |s|
  {
    if s != [] {
      if StartsWithDotSegment(s) {
        assert |Collapse(s)| < |s|;
      } else {
        CollapseChangesIff(s[1..]);
        if |s| < 3 {
          assert !HasDotSegment(s[1..]);
        }
      }
    }
  }

  /** A prefix without `/./` that does not end in `/` or `/.` is copied as
      it is: no match can start inside it. */
  lemma {:induction false} CollapseAppend(a: string, b: string)
    requires !HasDotSegment(a)
    requires a == [] || a[|a| - 1] != '/'
    requires |a| < 2 || !(a[|a| - 2] == '/' && a[|a| - 1] == '.')
    ensures Collapse(a + b) == a + Collapse(b)
    decreases |a|
  {
    if a == [] {
      assert a + b == b;
    } else {
      var s, rest := a + b, a[1..];
      assert s[0] == a[0];
      assert !StartsWithDotSegment(s) by {
        if |a| >= 3 {
          assert !StartsWithDotSegment(a);
          assert s[1] == a[1] && s[2] == a[2];
        } else if |a| == 2 {
          assert s[1] == a[1];
        }
      }
      assert s[1..] == rest + b;
      assert !HasDotSegment(rest);
      CollapseAppend(rest, b);
      assert a == [a[0]] + rest;
      AppendAssoc([a[0]], rest, Collapse(b));
    }
  }

  /** A prefix at none of whose positions a match starts, even when it is
      read on into what follows, is copied as it is. This is the general
      form of `CollapseAppend`: a `/` in front of a `/./` stays. */
  lemma {:induction false} CollapseCopies(a: string, b: string)
    requires forall i :: 0 <= i < |a| ==> !StartsWithDotSegment((a + b)[i..])
    ensures Collapse(a + b) == a + Collapse(b)
    decreases |a|
  {
    if a == [] {
      assert a + b == b;
    } else {
      var s, rest := a + b, a[1..];
      assert s[0..] == s;
      assert s[1..] == rest + b;
      forall i | 0 <= i < |rest|
        ensures !StartsWithDotSegment((rest + b)[i..])
      {
        assert (rest + b)[i..] == s[i + 1..];
      }
      CollapseCopies(rest, b);
      assert s[0] == a[0];
      assert a == [a[0]] + rest;
      AppendAssoc([a[0]], rest, Collapse(b));
    }
  }

  /** A `/./` at the front becomes `/`, and the scan resumes after it. */
  lemma CollapseDotSegment(u: string)
    requires !StartsWithDotSegment(u)
    ensures Collapse("/./" + u) == "/" + Collapse(u)
  {
    var s := "/./" + u;
    assert StartsWithDotSegment(s);
    assert s[3..] == u;
  }

  /** Any number of back-to-back `/./` becomes a single `/`. */
  lemma CollapseDotSegmentRun(k: nat, u: string)
    requires k >= 1 && !StartsWithDotSegment(u)
    ensures Collapse(DotSegments(k) + u) == "/" + Collapse(u)
  {
    var d := DotSegments(k - 1);
    assert DotSegments(k) == "/./" + d;
    DetachDotSegment(d, u);
    CollapseAtDotSegment(("/./" + d) + u);
    SkipDotSegmentsOf(k - 1, u);
  }

  /** One step of the scan at a match. */
  lemma CollapseAtDotSegment(s: string)
    requires StartsWithDotSegment(s)
    ensures Collapse(s) == "/" + Collapse(SkipDotSegments(s[3..]))
  {
  }

  /** Two of them, written out. */
  lemma CollapseTwoDotSegments(u: string)
    requires !StartsWithDotSegment(u)
    ensures Collapse("/./" + "/./" + u) == "/" + Collapse(u)
  {
    assert DotSegments(2) == "/./" + "/./";
    CollapseDotSegmentRun(2, u);
  }

  /** The pass is not a fixed point: the `/` it leaves can start a new `/./`. */
  lemma CollapseIsSinglePass()
    ensures Collapse("/././") == "/./"
  {
    var s := "/././";
    assert StartsWithDotSegment(s);
    assert SkipDotSegments(s[3..]) == "./";
    assert Collapse("./") == "./";
  }

  // ---------------------------------------------------------------------
  // Step 2 of ResolveSequences: the matches of `/[0-9A-Za-z(\-)(\.)]+`.

  /** The class `[0-9A-Za-z(\-)(\.)]`: letters, digits, `(`, `)`, `-` and `.`. */
  predicate IsSegmentChar(c: char) {
    ('0' <= c <= '9') || ('A' <= c <= 'Z') || ('a' <= c <= 'z') || c == '(' || c == ')' || c == '-' || c == '.'
  }

  /** One match: a `/` followed by a non-empty run of segment characters. */
  predicate IsSegment(seg: string) {
    |seg| >= 2 && seg[0] == '/' && forall i :: 1 <= i < |seg| ==> IsSegmentChar(seg[i])
  }

  /** The successive leftmost, greedy, non-overlapping matches in `s`. */
  function Segments(s: string): (segs: seq<string>)
    ensures forall k :: 0 <= k < |segs| ==> IsSegment(segs[k])
    ensures (forall i :: 0 <= i < |s| ==> s[i] != '/') ==> segs == []
    decreases |s|
  {
    if s == [] then []
    else if s[0] == '/' && |s| > 1 && IsSegmentChar(s[1]) then
      var n := 1 + PrefixLength(IsSegmentChar, s[1..]);
      [s[..n]] + Segments(s[n..])
    else Segments(s[1..])
  }

  /** `string.Join("", ...)`: concatenation without separators. */
  function Join(segs: seq<string>): string
    decreases |segs|
  {
    if segs == [] then [] else segs[0] + Join(segs[1..])
  }

  /** Dropping components drops their characters: joining a subsequence of
      components gives a subsequence of the joined text. */
  lemma {:induction false} JoinSubsequence(a: seq<string>, b: seq<string>)
    requires IsSubsequence(a, b)
    ensures IsSubsequence(Join(a), Join(b))
    decreases |b|
  {
    if a == [] {
    } else if a[0] == b[0] && IsSubsequence(a[1..], b[1..]) {
      JoinSubsequence(a[1..], b[1..]);
      SubsequencePrepend(a[0], Join(a[1..]), Join(b[1..]));
    } else {
      JoinSubsequence(a, b[1..]);
      assert Join(b)[|b[0]|..] == Join(b[1..]);
      SubsequenceDrop(Join(a), Join(b), |b[0]|);
    }
  }

  lemma {:induction false} JoinAppend(a: seq<string>, b: seq<string>)
    ensures Join(a + b) == Join(a) + Join(b)
    decreases |a|
  {
    if a == [] {
      assert [] + b == b;
    } else {
      assert (a + b)[1..] == a[1..] + b;
      JoinAppend(a[1..], b);
      AppendAssoc(a[0], Join(a[1..]), Join(b));
    }
  }

  /** The text between matches is discarded: the matches, joined, are a
      subsequence of the scanned string. */
  lemma {:induction false} SegmentsDeleteOnly(s: string)
    ensures IsSubsequence(Join(Segments(s)), s)
    decreases |s|
  {
    if s == [] {
    } else if s[0] == '/' && |s| > 1 && IsSegmentChar(s[1]) {
      var n := 1 + PrefixLength(IsSegmentChar, s[1..]);
      SegmentsDeleteOnly(s[n..]);
      SubsequencePrepend(s[..n], Join(Segments(s[n..])), s[n..]);
      assert s[..n] + s[n..] == s;
      assert ([s[..n]] + Segments(s[n..]))[1..] == Segments(s[n..]);
    } else {
      SegmentsDeleteOnly(s[1..]);
      SubsequenceDrop(Join(Segments(s[1..])), s, 1);
    }
  }

  /** Text that holds no `/` starts no match: the scan steps over it and
      finds exactly the matches of what follows. */
  lemma {:induction false} SegmentsSkipText(junk: string, s: string)
    requires forall i :: 0 <= i < |junk| ==> junk[i] != '/'
    ensures Segments(junk + s) == Segments(s)
    decreases |junk|
  {
    if junk == [] {
      assert junk + s == s;
    } else {
      SegmentsSkipText(junk[1..], s);
      SkipOneChar(junk, s);
    }
  }

  /** More generally, text in which every `/` is followed by a character
      outside the class (or by nothing) starts no match: the scan steps
      over each such `/` and continues. */
  lemma {:induction false} SegmentsSkipNoMatch(junk: string, s: string)
    requires forall i :: 0 <= i < |junk| && (junk + s)[i] == '/' && i + 1 < |junk + s| ==> !IsSegmentChar((junk + s)[i + 1])
    ensures Segments(junk + s) == Segments(s)
    decreases |junk|
  {
    if junk == [] {
      assert junk + s == s;
    } else {
      var t, rest := junk + s, junk[1..];
      assert t[1..] == rest + s;
      forall i | 0 <= i < |rest| && (rest + s)[i] == '/' && i + 1 < |rest + s|
        ensures !IsSegmentChar((rest + s)[i + 1])
      {
        assert (rest + s)[i] == t[i + 1] && (rest + s)[i + 1] == t[i + 2];
      }
      SegmentsSkipNoMatch(rest, s);
      assert !(t[0] == '/' && |t| > 1 && IsSegmentChar(t[1]));
    }
  }

  /** The induction step of `SegmentsSkipText`: one character that is not `/`. */
  lemma SkipOneChar(junk: string, s: string)
    requires junk != [] && junk[0] != '/'
    ensures Segments(junk + s) == Segments(junk[1..] + s)
  {
    var t := junk + s;
    assert t[0] == junk[0] && t[1..] == junk[1..] + s;
  }

  /** Scanning joined matches gives the same matches back, followed by the
      matches of whatever comes after, provided that does not extend the
      last match. */
  lemma {:induction false} SegmentsOfJoin(segs: seq<string>, rest: string)
    requires forall k :: 0 <= k < |segs| ==> IsSegment(segs[k])
    requires rest == [] || !IsSegmentChar(rest[0])
    ensures Segments(Join(segs) + rest) == segs + Segments(rest)
    decreases |segs|
  {
    if segs == [] {
      assert Join(segs) + rest == rest;
      assert segs + Segments(rest) == Segments(rest);
    } else {
      var more := segs[1..];
      SegmentsOfJoin(more, rest);
      JoinStart(more, rest);
      assert segs == [segs[0]] + more;
      SegmentsOfCons(segs[0], more, rest);
    }
  }

  /** The induction step of `SegmentsOfJoin`: one more match in front. */
  lemma SegmentsOfCons(x: string, more: seq<string>, rest: string)
    requires IsSegment(x)
    requires var t := Join(more) + rest; t == [] || !IsSegmentChar(t[0])
    requires Segments(Join(more) + rest) == more + Segments(rest)
    ensures Segments(Join([x] + more) + rest) == ([x] + more) + Segments(rest)
  {
    var tail := Join(more) + rest;
    assert ([x] + more)[1..] == more;
    assert Join([x] + more) == x + Join(more);
    AppendAssoc(x, Join(more), rest);
    SegmentsOfOne(x, tail);
    AppendAssoc([x], more, Segments(rest));
  }

  /** What follows a joined list of matches starts with `/` unless the list is empty. */
  lemma JoinStart(segs: seq<string>, rest: string)
    requires forall k :: 0 <= k < |segs| ==> IsSegment(segs[k])
    requires rest == [] || !IsSegmentChar(rest[0])
    ensures var t := Join(segs) + rest; t == [] || !IsSegmentChar(t[0])
  {
    if segs != [] {
      assert (Join(segs) + rest)[0] == segs[0][0];
    }
  }

  /** One match followed by text that does not extend it. */
  lemma SegmentsOfOne(x: string, tail: string)
    requires IsSegment(x)
    requires tail == [] || !IsSegmentChar(tail[0])
    ensures Segments(x + tail) == [x] + Segments(tail)
  {
    var s := x + tail;
    assert s[1..] == x[1..] + tail;
    PrefixLengthUnique(IsSegmentChar, s[1..], |x| - 1);
    assert s[..|x|] == x && s[|x|..] == tail;
  }

  /** A string made of matches: empty, or starting with `/`, not ending in
      `/`, without `//` and without `#`. */
  lemma {:induction false} JoinedSegmentsShape(segs: seq<string>)
    requires forall k :: 0 <= k < |segs| ==> IsSegment(segs[k])
    ensures var j := Join(segs);
      && '#' !in j
      && (j == [] || (j[0] == '/' && j[|j| - 1] != '/'))
      && NoRepeat(j, '/')
    decreases |segs|
  {
    if segs != [] {
      var x, tail := segs[0], Join(segs[1..]);
      JoinedSegmentsShape(segs[1..]);
      var j := x + tail;
      assert forall i :: 0 <= i < |x| ==> x[i] != '#' by {
        forall i | 0 <= i < |x| ensures x[i] != '#' {
          if i > 0 {
            assert IsSegmentChar(x[i]);
          }
        }
      }
      forall i | 0 <= i < |j| - 1 ensures !(j[i] == '/' && j[i + 1] == '/') {
        if i + 1 < |x| {
          assert IsSegmentChar(x[i + 1]);
        } else if i + 1 == |x| {
          assert IsSegmentChar(x[i]);
        } else {
          assert j[i] == tail[i - |x|] && j[i + 1] == tail[i - |x| + 1];
        }
      }
      assert tail != [] ==> j[|j| - 1] == tail[|tail| - 1];
      assert tail == [] ==> IsSegmentChar(j[|j| - 1]);
    }
  }

  // ---------------------------------------------------------------------
  // Step 3 of ResolveSequences: the one-match lookahead filter.

  /** The test inside the `foreach` of `ResolveSequences`: a match is kept unless it, or the match after it
      (`NextMatch()`, empty after the last one), is exactly `/..`. */
  predicate KeepAt(segs: seq<string>, i: nat)
    requires i < |segs|
  {
    segs[i] != "/.." && (i + 1 == |segs| || segs[i + 1] != "/..")
  }

  /** The components the loop has collected after the first `n` matches. */
  function Kept(segs: seq<string>, n: nat): (kept: seq<string>)
    requires n <= |segs|
    ensures forall k :: 0 <= k < |kept| ==> kept[k] != "/.." && kept[k] in segs
    ensures (forall k :: 0 <= k < |segs| ==> segs[k] != "/..") ==> kept == segs[..n]
    decreases n
  {
    if n == 0 then []
    else Kept(segs, n - 1) + (if KeepAt(segs, n - 1) then [segs[n - 1]] else [])
  }

  /** Kept components stay in their order; none is invented. */
  lemma {:induction false} KeptDeletesOnly(segs: seq<string>, n: nat)
    requires n <= |segs|
    ensures IsSubsequence(Kept(segs, n), segs[..n])
  {
    if n > 0 {
      var before := Kept(segs, n - 1);
      KeptDeletesOnly(segs, n - 1);
      assert segs[..n] == segs[..n - 1] + [segs[n - 1]];
      SubsequenceSnoc(before, segs[..n - 1], segs[n - 1]);
      if KeepAt(segs, n - 1) {
        assert Kept(segs, n) == before + [segs[n - 1]];
      } else {
        assert Kept(segs, n) == before;
      }
    }
  }

  /** A component value is collected exactly when some match with that
      value passes the lookahead test. */
  lemma {:induction false} KeptMembership(segs: seq<string>, n: nat, x: string)
    requires n <= |segs|
    ensures x in Kept(segs, n) <==> exists i :: 0 <= i < n && segs[i] == x && KeepAt(segs, i)
  {
    if n > 0 {
      KeptMembership(segs, n - 1, x);
      if KeepAt(segs, n - 1) {
        assert Kept(segs, n) == Kept(segs, n - 1) + [segs[n - 1]];
      } else {
        assert Kept(segs, n) == Kept(segs, n - 1);
      }
    }
  }

  /** The last match is kept exactly when it is not `/..`. */
  lemma KeptLastIff(segs: seq<string>)
    requires segs != []
    ensures var kept := Kept(segs, |segs|);
      (kept != [] && kept[|kept| - 1] == segs[|segs| - 1]) <==> segs[|segs| - 1] != "/.."
  {
    if segs[|segs| - 1] != "/.." {
      assert KeepAt(segs, |segs| - 1);
      assert Kept(segs, |segs|) == Kept(segs, |segs| - 1) + [segs[|segs| - 1]];
    }
  }

  /** Nothing is dropped exactly when no match is `/..`. */
  lemma KeptAllIff(segs: seq<string>)
    ensures Kept(segs, |segs|) == segs <==> forall k :: 0 <= k < |segs| ==> segs[k] != "/.."
  {
    if Kept(segs, |segs|) == segs {
      forall k | 0 <= k < |segs| ensures segs[k] != "/.." {
        assert segs[k] == Kept(segs, |segs|)[k];
      }
    } else {
      assert segs[..|segs|] == segs;
    }
  }

  /** The whole of `ResolveSequences`, as a function of its input. Every
      step only deletes characters, so the result is a subsequence of the
      input. */
  function Resolved(remainder: string): (r: string)
    ensures IsSubsequence(r, remainder)
  {
    var collapsed := Collapse(remainder);
    var segs := Segments(collapsed);
    CollapseDeletesOnly(remainder);
    if segs == [] then collapsed
    else
      var kept := Kept(segs, |segs|);
      KeptDeletesOnly(segs, |segs|);
      assert segs[..|segs|] == segs;
      JoinSubsequence(kept, segs);
      SegmentsDeleteOnly(collapsed);
      SubsequenceTrans(Join(kept), Join(segs), collapsed);
      SubsequenceTrans(Join(kept), collapsed, remainder);
      Join(kept)
  }

  /** `ResolveSequences`: collapse, then keep the matches that pass the lookahead
      test and join them; with no match the collapsed text is the result. */
  method ResolveSequences(remainder: string) returns (result: string)
    ensures result == Resolved(remainder)
  {
    result := remainder;
    if HasDotSegment(result) {
      result := Collapse(result);
    } else {
      CollapseChangesIff(result);
    }
    var matches := Segments(result);
    if |matches| > 0 {
      var validComponents: seq<string> := [];
      for i := 0 to |matches|
        invariant validComponents == Kept(matches, i)
      {
        var nextMatch := if i + 1 < |matches| then matches[i + 1] else "";
        if matches[i] != "/.." && nextMatch != "/.." {
          validComponents := validComponents + [matches[i]];
        }
      }
      result := Join(validComponents);
    }
  }

  /** Without any `/` the pass is the identity. */
  lemma ResolvedWithoutSlash(remainder: string)
    requires forall i :: 0 <= i < |remainder| ==> remainder[i] != '/'
    ensures Resolved(remainder) == remainder
  {
    assert !HasDotSegment(remainder) by {
      NoSlashNoDotSegment(remainder);
    }
    CollapseChangesIff(remainder);
  }

  lemma {:induction false} NoSlashNoDotSegment(s: string)
    requires forall i :: 0 <= i < |s| ==> s[i] != '/'
    ensures !HasDotSegment(s)
    decreases |s|
  {
    if |s| >= 3 {
      NoSlashNoDotSegment(s[1..]);
    }
  }

  /** Once some match was found, the result is made of matches only: it is
      the join of the kept matches, scanning it again gives back exactly
      those matches, and so it holds only `/` and the class characters, no
      `#`, no `//`, no trailing `/`, and no `/..` component. */
  lemma ResolvedShape(remainder: string)
    requires Segments(Collapse(remainder)) != []
    ensures var segs := Segments(Collapse(remainder)); var r := Resolved(remainder);
      && Segments(r) == Kept(segs, |segs|)
      && r == Join(Segments(r))
      && (forall i :: 0 <= i < |r| ==> r[i] == '/' || IsSegmentChar(r[i]))
      && '#' !in r
      && (r == [] || (r[0] == '/' && r[|r| - 1] != '/'))
      && NoRepeat(r, '/')
      && forall k :: 0 <= k < |Segments(r)| ==> Segments(r)[k] != "/.."
  {
    var segs := Segments(Collapse(remainder));
    var kept := Kept(segs, |segs|);
    assert forall k :: 0 <= k < |kept| ==> IsSegment(kept[k]);
    JoinedSegmentsShape(kept);
    JoinChars(kept);
    SegmentsOfJoin(kept, []);
    assert Join(kept) + [] == Join(kept);
    assert kept + Segments([]) == kept;
  }

  /** Joined matches hold only `/` and the class characters. */
  lemma {:induction false} JoinChars(segs: seq<string>)
    requires forall k :: 0 <= k < |segs| ==> IsSegment(segs[k])
    ensures forall i :: 0 <= i < |Join(segs)| ==> Join(segs)[i] == '/' || IsSegmentChar(Join(segs)[i])
    decreases |segs|
  {
    if segs != [] {
      var x, rest := segs[0], Join(segs[1..]);
      JoinChars(segs[1..]);
      assert Join(segs) == x + rest;
      forall i | 0 <= i < |x + rest|
        ensures (x + rest)[i] == '/' || IsSegmentChar((x + rest)[i])
      {
        if i < |x| {
          assert (x + rest)[i] == x[i];
        } else {
          assert (x + rest)[i] == rest[i - |x|];
        }
      }
    }
  }

  // ---------------------------------------------------------------------
  // RemoveFragmentIdentifier.

  /** `IndexOf`: the first position of `c` in `s`, or -1. */
  function IndexOf(s: string, c: char): (i: int)
    ensures -1 <= i < |s|
    ensures i == -1 <==> c !in s
    ensures 0 <= i ==> s[i] == c && c !in s[..i]
    decreases |s|
  {
    if s == [] then -1
    else if s[0] == c then 0
    else
      var j := IndexOf(s[1..], c);
      if j == -1 then -1
      else
        assert s[..j + 1] == [s[0]] + s[1..][..j];
        j + 1
  }

  /** `RemoveFragmentIdentifier`: cuts the remainder at its first `#`. */
  function RemoveFragmentIdentifier(remainder: string): (r: string)
    ensures r <= remainder
    ensures '#' !in r
    ensures '#' !in remainder ==> r == remainder
    ensures '#' in remainder ==> remainder[|r|] == '#'
  {
    var index := IndexOf(remainder, '#');
    if index > -1 then remainder[..index] else remainder
  }

  lemma RemoveFragmentIdentifierIdempotent(remainder: string)
    ensures RemoveFragmentIdentifier(RemoveFragmentIdentifier(remainder)) == RemoveFragmentIdentifier(remainder)
  {
  }
}
