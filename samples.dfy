/** Worked inputs, each proved from the general lemmas one small step at a
    time. Literals are written as concatenations of the pieces the steps
    work on; the comments give them in one piece. */
module Samples {
  import opened Text
  import opened Splitter
  import opened HostNormalizer
  import opened RemainderNormalizer
  import opened Canonicalization

  lemma Regroup(a: string, b: string, c: string, d: string, e: string)
    ensures a + b + c + d + e == a + (b + (c + (d + e)))
  {
    AppendAssoc(a + b + c, d, e);
    AppendAssoc(a + b, c, d + e);
    AppendAssoc(a, b, c + (d + e));
  }

  // ---------------------------------------------------------------------
  // The remainder of the sample URL of the test program,
  // `/1/gholi/./3/test/keyvan/../nayyeri.html#something`, fed to
  // ResolveSequences on its own.

  lemma HeadPlain(a: string)
    requires a == "/1/gholi"
    ensures !HasDotSegment(a)
  {
    DotSegmentAt(a);
  }

  lemma MiddlePlain(t1: string)
    requires t1 == "3/test/keyvan"
    ensures !HasDotSegment(t1)
  {
    DotSegmentAt(t1);
  }

  lemma AscentPlain(t2: string)
    requires t2 == "/../nayyeri.html"
    ensures !HasDotSegment(t2)
  {
    DotSegmentAt(t2);
  }

  lemma FragmentPlain(f: string)
    requires f == "#something"
    ensures Collapse(f) == f
  {
    assert forall i :: 0 <= i < |f| ==> f[i] != '/';
    NoSlashNoDotSegment(f);
    CollapseChangesIff(f);
  }

  /** Step 1 on the sample: the one `/./` becomes `/`. */
  lemma SampleCollapse(a: string, t1: string, t2: string, f: string)
    requires a == "/1/gholi" && t1 == "3/test/keyvan" && t2 == "/../nayyeri.html" && f == "#something"
    ensures Collapse(a + "/./" + t1 + t2 + f) == a + "/" + t1 + t2 + f
  {
    HeadPlain(a);
    MiddlePlain(t1);
    AscentPlain(t2);
    FragmentPlain(f);
    CollapseAppend(t2, f);
    CollapseAppend(t1, t2 + f);
    var u := t1 + (t2 + f);
    assert u[0] == t1[0];
    CollapseDotSegment(u);
    CollapseAppend(a, "/./" + u);
    Regroup(a, "/./", t1, t2, f);
    Regroup(a, "/", t1, t2, f);
  }

  lemma HeadMatches(a: string)
    requires a == "/1/gholi"
    ensures Join(["/1", "/gholi"]) == a
  {
  }

  lemma MiddleMatches(t1: string)
    requires t1 == "3/test/keyvan"
    ensures Join(["/3", "/test", "/keyvan"]) == "/" + t1
  {
  }

  lemma AscentMatches(t2: string)
    requires t2 == "/../nayyeri.html"
    ensures Join(["/..", "/nayyeri.html"]) == t2
  {
  }

  lemma FragmentMatches(f: string)
    requires f == "#something"
    ensures !IsSegmentChar(f[0]) && Segments(f) == []
  {
  }

  lemma SampleSegmentsValid(segs: seq<string>)
    requires segs == ["/1", "/gholi", "/3", "/test", "/keyvan", "/..", "/nayyeri.html"]
    ensures forall k :: 0 <= k < |segs| ==> IsSegment(segs[k])
    ensures segs == ["/1", "/gholi"] + ["/3", "/test", "/keyvan"] + ["/..", "/nayyeri.html"]
  {
  }

  /** Step 2 on the sample: seven matches; the fragment is not one. */
  lemma SampleSegments(a: string, t1: string, t2: string, f: string)
    requires a == "/1/gholi" && t1 == "3/test/keyvan" && t2 == "/../nayyeri.html" && f == "#something"
    ensures Segments(a + "/" + t1 + t2 + f) == ["/1", "/gholi", "/3", "/test", "/keyvan", "/..", "/nayyeri.html"]
  {
    var x, y, z := ["/1", "/gholi"], ["/3", "/test", "/keyvan"], ["/..", "/nayyeri.html"];
    var segs := ["/1", "/gholi", "/3", "/test", "/keyvan", "/..", "/nayyeri.html"];
    SampleSegmentsValid(segs);
    HeadMatches(a);
    MiddleMatches(t1);
    AscentMatches(t2);
    FragmentMatches(f);
    JoinAppend(x + y, z);
    JoinAppend(x, y);
    AppendAssoc(a, "/", t1);
    assert Join(segs) + f == a + "/" + t1 + t2 + f;
    SegmentsOfJoin(segs, f);
  }

  /** Step 3 on the sample: `/keyvan` goes because `/..` follows it, and
      `/..` goes itself. */
  lemma SampleKept()
    ensures Kept(["/1", "/gholi", "/3", "/test", "/keyvan", "/..", "/nayyeri.html"], 7)
         == ["/1", "/gholi"] + ["/3", "/test"] + ["/nayyeri.html"]
  {
    var segs := ["/1", "/gholi", "/3", "/test", "/keyvan", "/..", "/nayyeri.html"];
    assert Kept(segs, 2) == ["/1", "/gholi"];
    assert Kept(segs, 3) == ["/1", "/gholi"] + ["/3"];
    assert Kept(segs, 4) == ["/1", "/gholi"] + ["/3", "/test"];
    assert !KeepAt(segs, 4) && !KeepAt(segs, 5);
    assert Kept(segs, 6) == ["/1", "/gholi"] + ["/3", "/test"];
  }

  lemma SampleKeptJoin()
    ensures Join(["/1", "/gholi"] + ["/3", "/test"] + ["/nayyeri.html"]) == "/1/gholi" + "/3/test" + "/nayyeri.html"
  {
    JoinAppend(["/1", "/gholi"] + ["/3", "/test"], ["/nayyeri.html"]);
    JoinAppend(["/1", "/gholi"], ["/3", "/test"]);
  }

  /** `/1/gholi/./3/test/keyvan/../nayyeri.html#something` resolves to
      `/1/gholi/3/test/nayyeri.html`. */
  lemma ResolvedSample()
    ensures Resolved("/1/gholi" + "/./" + "3/test/keyvan" + "/../nayyeri.html" + "#something")
         == "/1/gholi" + "/3/test" + "/nayyeri.html"
  {
    SampleCollapse("/1/gholi", "3/test/keyvan", "/../nayyeri.html", "#something");
    SampleSegments("/1/gholi", "3/test/keyvan", "/../nayyeri.html", "#something");
    SampleKept();
    SampleKeptJoin();
  }

  // ---------------------------------------------------------------------
  // A double ascent.

  lemma AscentsPlain(s: string)
    requires s == "/a/b/../../c"
    ensures Collapse(s) == s
  {
    DotSegmentAt(s);
    CollapseChangesIff(s);
  }

  lemma AscentsValid(segs: seq<string>)
    requires segs == ["/a", "/b", "/..", "/..", "/c"]
    ensures forall k :: 0 <= k < |segs| ==> IsSegment(segs[k])
  {
  }

  lemma AscentsJoin()
    ensures Join(["/a", "/b", "/..", "/..", "/c"]) == "/a/b/../../c"
  {
  }

  lemma AscentsSegments(s: string, segs: seq<string>)
    requires s == "/a/b/../../c"
    requires segs == ["/a", "/b", "/..", "/..", "/c"]
    ensures Segments(s) == segs
  {
    AscentsValid(segs);
    AscentsJoin();
    SegmentsOfJoin(segs, []);
    assert Join(segs) + [] == s;
    assert segs + Segments([]) == segs;
  }

  /** `/b` goes because `/..` follows it; the first `/..` is itself followed
      by `/..`, but `/a` is only compared with its own successor `/b`. */
  lemma AscentsKept()
    ensures Kept(["/a", "/b", "/..", "/..", "/c"], 5) == ["/a", "/c"]
  {
  }

  /** Because the lookahead pass is single, `/a/b/../../c` gives `/a/c`,
      not `/c`. */
  lemma ResolvedDoubleAscent(s: string)
    requires s == "/a/b/../../c"
    ensures Resolved(s) == "/a/c"
  {
    AscentsPlain(s);
    AscentsSegments(s, ["/a", "/b", "/..", "/..", "/c"]);
    AscentsKept();
    assert Join(["/a", "/c"]) == "/a/c";
  }

  // ---------------------------------------------------------------------
  // A `/` that starts no match.

  lemma SlashPieces(a: string, u: string)
    requires a == "/" && u == "x"
    ensures !StartsWithDotSegment((a + ("/./" + u))[0..])
    ensures !StartsWithDotSegment(u) && !HasDotSegment(u)
    ensures a + ("/" + u) == "//x"
  {
    assert (a + ("/./" + u))[0..] == "//./x";
  }

  /** The `/` in front of `/./` is not part of the match: `//./x` gives
      `//x`. */
  lemma SlashBeforeDotSegment(a: string, u: string)
    requires a == "/" && u == "x"
    ensures Collapse(a + "/./" + u) == "//x"
  {
    SlashPieces(a, u);
    CollapseCopies(a, "/./" + u);
    CollapseDotSegment(u);
    CollapseChangesIff(u);
    AppendAssoc(a, "/./", u);
  }

  lemma EmptyStepPieces(x: string, j: string, y: string)
    requires x == "/a" && j == "/" && y == "/b"
    ensures IsSegment(x) && IsSegment(y)
    ensures (j + y)[0] == '/' && !IsSegmentChar((j + y)[0]) && !IsSegmentChar((j + y)[1])
  {
  }

  /** An empty step between two matches is stepped over: `/a//b` has the
      matches `/a` and `/b`. */
  lemma EmptyStepSkipped(x: string, j: string, y: string)
    requires x == "/a" && j == "/" && y == "/b"
    ensures Segments(x + j + y) == [x, y]
  {
    EmptyStepPieces(x, j, y);
    SegmentsOfOne(x, j + y);
    SegmentsSkipNoMatch(j, y);
    SegmentsOfOne(y, []);
    assert y + [] == y;
    assert [x] + [y] == [x, y];
    AppendAssoc(x, j, y);
  }

  lemma StrayPieces(x: string, t: string)
    requires x == "/a" && t == "_b"
    ensures IsSegment(x) && !IsSegmentChar(t[0])
    ensures forall i :: 0 <= i < |t| ==> t[i] != '/'
    ensures !HasDotSegment(x + t)
    ensures Kept([x], 1) == [x] && Join([x]) == x
  {
    DotSegmentAt(x + t);
    assert Join([x]) == x + Join([]);
  }

  /** Only the matches survive: `/a_b` has the single match `/a`, and the
      text after it is dropped. */
  lemma ResolvedDropsNonMatch(x: string, t: string)
    requires x == "/a" && t == "_b"
    ensures Resolved(x + t) == "/a"
  {
    StrayPieces(x, t);
    CollapseChangesIff(x + t);
    SegmentsOfOne(x, t);
    assert t + [] == t;
    SegmentsSkipText(t, []);
    assert [x] + [] == [x];
  }

  // ---------------------------------------------------------------------
  // The sample URL of the test program,
  // `http://One.2.nayyeri$.net/1/gholi/./3/test/keyvan/../nayyeri.html#something`,
  // through the whole pipeline.

  lemma SampleUrlPieces(scheme: string, host: string, rest: string)
    requires scheme == "http"
    requires host == "One.2.nayyeri" + "$" + ".net"
    requires rest == "/1/gholi" + "/./" + "3/test/keyvan" + "/../nayyeri.html" + "#something"
    ensures scheme != [] && scheme[0] != '&'
    ensures forall i :: 0 <= i < |scheme| ==> IsSchemeChar(scheme[i])
    ensures forall i :: 0 <= i < |host| ==> IsAuthorityChar(host[i])
    ensures rest[0] == '/'
  {
  }

  /** The authority stops at the first `/`; the path group then captures
      nothing. */
  lemma SampleSplit(scheme: string, host: string, rest: string)
    requires scheme == "http"
    requires host == "One.2.nayyeri" + "$" + ".net"
    requires rest == "/1/gholi" + "/./" + "3/test/keyvan" + "/../nayyeri.html" + "#something"
    ensures Split(scheme + "://" + host + rest) == SplitResult(host, [])
  {
    SampleUrlPieces(scheme, host, rest);
    SplitOfAuthorityUrl(scheme, host, rest);
  }

  lemma SampleHostPieces(p: string, t: string)
    requires p == "One.2.nayyeri" && t == ".net"
    ensures forall i :: 0 <= i < |p| ==> IsHostChar(p[i])
    ensures forall i :: 0 <= i < |t| ==> IsCanonicalHostChar(t[i])
    ensures NoEdgeDots(p + "$" + t) && NoDoubleDot(p + "$" + t)
  {
  }

  lemma SampleHostLower(p: string, l: string)
    requires p == "One.2.nayyeri" && l == "one.2.nayyeri"
    ensures ToLower(p) == l
  {
    assert forall i :: 0 <= i < |p| ==> LowerChar(p[i]) == l[i];
  }

  /** Only `$` is deleted, by the escape pass, and only `O` changes case. */
  lemma SampleCanonicalHost(p: string, t: string)
    requires p == "One.2.nayyeri" && t == ".net"
    ensures NormalizeHost(p + "$" + t) == "one.2.nayyeri" + t
  {
    SampleHostPieces(p, t);
    NormalizeHostDeletesStray(p, '$', t);
    ToLowerAppend(p, t);
    SampleHostLower(p, "one.2.nayyeri");
    ToLowerKeepsCanonical(t);
  }

  lemma CanonicalOfHostOnly(url: string, host: string, canonicalHost: string)
    requires Split(url) == SplitResult(host, [])
    requires NormalizeHost(host) == canonicalHost
    ensures CanonicalizedUrl(url) == canonicalHost + "/"
  {
    CanonicalizedUrlShape(url);
  }

  /** The test program's URL canonicalizes to
      `one.2.nayyeri.net/`, its host and `/`; the path after the authority
      never reaches the remainder passes. */
  lemma CanonicalizedSampleUrl()
    ensures CanonicalizedUrl("http" + "://" + ("One.2.nayyeri" + "$" + ".net")
        + ("/1/gholi" + "/./" + "3/test/keyvan" + "/../nayyeri.html" + "#something"))
      == "one.2.nayyeri" + ".net" + "/"
  {
    var host := "One.2.nayyeri" + "$" + ".net";
    var rest := "/1/gholi" + "/./" + "3/test/keyvan" + "/../nayyeri.html" + "#something";
    SampleSplit("http", host, rest);
    SampleCanonicalHost("One.2.nayyeri", ".net");
    CanonicalOfHostOnly("http" + "://" + host + rest, host, "one.2.nayyeri" + ".net");
  }
}
