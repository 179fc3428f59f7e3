/** Generic facts about strings and sequences shared by the passes: the
    subsequence order, a character filter (a regex `Replace(s, "")` over one
    character class) and the greedy length of a character-class run. */
module Text {

  /** `a` is obtained from `b` by deleting elements, never reordering them. */
  predicate IsSubsequence<T(==)>(a: seq<T>, b: seq<T>)
    decreases |b|
  {
    a == [] || (b != [] && ((a[0] == b[0] && IsSubsequence(a[1..], b[1..])) || IsSubsequence(a, b[1..])))
  }

  lemma {:induction false} SubsequenceRefl<T>(s: seq<T>)
    ensures IsSubsequence(s, s)
  {
    if s != [] {
      SubsequenceRefl(s[1..]);
    }
  }

  lemma {:induction false} SubsequenceDrop<T>(a: seq<T>, b: seq<T>, n: nat)
    requires n <= |b|
    requires IsSubsequence(a, b[n..])
    ensures IsSubsequence(a, b)
  {
    if n > 0 {
      assert b[1..][n - 1..] == b[n..];
      SubsequenceDrop(a, b[1..], n - 1);
    }
  }

  lemma {:induction false} SubsequenceTrans<T>(a: seq<T>, b: seq<T>, c: seq<T>)
    requires IsSubsequence(a, b) && IsSubsequence(b, c)
    ensures IsSubsequence(a, c)
    decreases |c|
  {
    if a == [] {
    } else if b == [] {
    } else if b[0] == c[0] && IsSubsequence(b[1..], c[1..]) {
      if a[0] == b[0] && IsSubsequence(a[1..], b[1..]) {
        SubsequenceTrans(a[1..], b[1..], c[1..]);
      } else {
        SubsequenceTrans(a, b[1..], c[1..]);
      }
    } else {
      SubsequenceTrans(a, b, c[1..]);
    }
  }

  /** Every element of a subsequence occurs in the larger sequence. */
  lemma {:induction false} SubsequenceMembers<T>(a: seq<T>, b: seq<T>)
    requires IsSubsequence(a, b)
    ensures forall i :: 0 <= i < |a| ==> a[i] in b
    decreases |b|
  {
    if a != [] {
      if a[0] == b[0] && IsSubsequence(a[1..], b[1..]) {
        SubsequenceMembers(a[1..], b[1..]);
        assert forall i :: 1 <= i < |a| ==> a[i] == a[1..][i - 1];
      } else {
        SubsequenceMembers(a, b[1..]);
      }
    }
  }

  /** Every prefix of `b` is a subsequence of `b`. */
  lemma {:induction false} PrefixIsSubsequence<T>(b: seq<T>, n: nat)
    requires n <= |b|
    ensures IsSubsequence(b[..n], b)
  {
    if n > 0 {
      assert b[..n][1..] == b[1..][..n - 1];
      PrefixIsSubsequence(b[1..], n - 1);
    }
  }

  /** Prepending the same elements to both sides keeps the order. */
  lemma {:induction false} SubsequencePrepend<T>(p: seq<T>, a: seq<T>, b: seq<T>)
    requires IsSubsequence(a, b)
    ensures IsSubsequence(p + a, p + b)
  {
    if p != [] {
      SubsequencePrepend(p[1..], a, b);
      assert (p + a)[1..] == p[1..] + a;
      assert (p + b)[1..] == p[1..] + b;
    } else {
      assert p + a == a && p + b == b;
    }
  }

  /** Appending one element to the larger side, or to both, keeps the order. */
  lemma {:induction false} SubsequenceSnoc<T>(a: seq<T>, b: seq<T>, x: T)
    requires IsSubsequence(a, b)
    ensures IsSubsequence(a, b + [x])
    ensures IsSubsequence(a + [x], b + [x])
    decreases |b|
  {
    if b == [] {
      assert a == [];
      assert IsSubsequence([x], [x]);
    } else {
      assert (b + [x])[1..] == b[1..] + [x];
      if a == [] {
        assert IsSubsequence(a + [x], b[1..] + [x]) by { SubsequenceSnoc(a, b[1..], x); }
      } else if a[0] == b[0] && IsSubsequence(a[1..], b[1..]) {
        SubsequenceSnoc(a[1..], b[1..], x);
        assert (a + [x])[1..] == a[1..] + [x];
      } else {
        SubsequenceSnoc(a, b[1..], x);
      }
    }
  }

  /** Deletes every character that `keep` rejects: the effect of replacing
      every match of a character class by the empty string. */
  function Filter(keep: char -> bool, s: string): (r: string)
    ensures forall i :: 0 <= i < |r| ==> keep(r[i])
    decreases |s|
  {
    if s == [] then []
    else if keep(s[0]) then [s[0]] + Filter(keep, s[1..])
    else Filter(keep, s[1..])
  }

  /** A filter that accepts every character changes nothing. */
  lemma {:induction false} FilterKeepsAll(keep: char -> bool, s: string)
    requires forall i :: 0 <= i < |s| ==> keep(s[i])
    ensures Filter(keep, s) == s
    decreases |s|
  {
    if s != [] {
      assert forall i :: 0 <= i < |s[1..]| ==> s[1..][i] == s[i + 1];
      FilterKeepsAll(keep, s[1..]);
      assert s == [s[0]] + s[1..];
    }
  }

  /** A filter only deletes, and it deletes nothing that `keep` accepts:
      each accepted character occurs as often after filtering as before. */
  lemma FilterDeletesRejected(keep: char -> bool, s: string)
    ensures IsSubsequence(Filter(keep, s), s)
    ensures forall c :: keep(c) ==> multiset(Filter(keep, s))[c] == multiset(s)[c]
  {
    FilterIsSubsequence(keep, s);
    forall c | keep(c) ensures multiset(Filter(keep, s))[c] == multiset(s)[c] {
      FilterKeepsAccepted(keep, s, c);
    }
  }

  lemma {:induction false} FilterIsSubsequence(keep: char -> bool, s: string)
    ensures IsSubsequence(Filter(keep, s), s)
    decreases |s|
  {
    if s != [] {
      var rest := Filter(keep, s[1..]);
      FilterIsSubsequence(keep, s[1..]);
      if keep(s[0]) {
        var r := [s[0]] + rest;
        assert Filter(keep, s) == r;
        assert r[0] == s[0] && r[1..] == rest;
      } else {
        assert Filter(keep, s) == rest;
      }
    }
  }

  lemma {:induction false} FilterKeepsAccepted(keep: char -> bool, s: string, c: char)
    requires keep(c)
    ensures multiset(Filter(keep, s))[c] == multiset(s)[c]
    decreases |s|
  {
    if s != [] {
      var rest := Filter(keep, s[1..]);
      FilterKeepsAccepted(keep, s[1..], c);
      assert s == [s[0]] + s[1..];
      assert multiset(s) == multiset([s[0]]) + multiset(s[1..]);
      if keep(s[0]) {
        assert Filter(keep, s) == [s[0]] + rest;
        assert multiset([s[0]] + rest) == multiset([s[0]]) + multiset(rest);
      } else {
        assert s[0] != c;
        assert Filter(keep, s) == rest;
      }
    }
  }

  /** Filtering distributes over concatenation. */
  lemma {:induction false} FilterAppend(keep: char -> bool, a: string, b: string)
    ensures Filter(keep, a + b) == Filter(keep, a) + Filter(keep, b)
    decreases |a|
  {
    if a != [] {
      var ab := a + b;
      assert ab[0] == a[0] && ab[1..] == a[1..] + b;
      FilterAppend(keep, a[1..], b);
      var rest := Filter(keep, a[1..]);
      if keep(a[0]) {
        assert Filter(keep, ab) == [a[0]] + (rest + Filter(keep, b));
        AppendAssoc([a[0]], rest, Filter(keep, b));
      } else {
        assert Filter(keep, ab) == rest + Filter(keep, b);
      }
    } else {
      assert a + b == b;
    }
  }

  /** Filtering deletes a rejected character between two kept stretches. */
  lemma FilterDeletesOne(keep: char -> bool, p: string, c: char, t: string)
    requires Filter(keep, p) == p && Filter(keep, t) == t
    requires !keep(c)
    ensures Filter(keep, p + [c] + t) == p + t
  {
    FilterAppend(keep, p + [c], t);
    FilterAppend(keep, p, [c]);
    assert Filter(keep, [c]) == [];
  }

  /** Filtering skips a prefix whose every character it would delete anyway. */
  lemma {:induction false} FilterSkipsRejected(keep: char -> bool, s: string, n: nat)
    requires n <= |s|
    requires forall i :: 0 <= i < n ==> !keep(s[i])
    ensures Filter(keep, s) == Filter(keep, s[n..])
  {
    if n > 0 {
      assert s[1..][n - 1..] == s[n..];
      FilterSkipsRejected(keep, s[1..], n - 1);
    }
  }

  /** A leading stretch that the filter rejects entirely makes no difference. */
  lemma {:induction false} FilterRejectedPrefix(keep: char -> bool, head: string, rest: string)
    requires forall i :: 0 <= i < |head| ==> !keep(head[i])
    ensures Filter(keep, head + rest) == Filter(keep, rest)
    decreases |head|
  {
    if head == [] {
      assert head + rest == rest;
    } else {
      var s := head + rest;
      assert s[0] == head[0] && s[1..] == head[1..] + rest;
      FilterRejectedPrefix(keep, head[1..], rest);
    }
  }

  /** Likewise a trailing stretch that the filter rejects entirely. */
  lemma FilterRejectedSuffix(keep: char -> bool, body: string, tail: string)
    requires forall i :: 0 <= i < |tail| ==> !keep(tail[i])
    ensures Filter(keep, body + tail) == Filter(keep, body)
  {
    FilterAppend(keep, body, tail);
    FilterRejectedPrefix(keep, tail, []);
    assert tail + [] == tail;
  }

  /** The length of the longest prefix of `s` whose characters all satisfy
      `p`: what a greedy `[...]*` run matches. */
  function PrefixLength(p: char -> bool, s: string): (n: nat)
    ensures n <= |s|
    ensures forall i :: 0 <= i < n ==> p(s[i])
    ensures n < |s| ==> !p(s[n])
    decreases |s|
  {
    if s != [] && p(s[0]) then 1 + PrefixLength(p, s[1..]) else 0
  }

  /** The greedy run starting at `lo`, cut out of `s`, is made of accepted
      characters. */
  lemma RunSlice(p: char -> bool, s: string, lo: nat, hi: nat)
    requires lo <= |s| && hi == lo + PrefixLength(p, s[lo..])
    ensures forall i :: 0 <= i < hi - lo ==> p(s[lo..hi][i])
  {
    assert forall i :: 0 <= i < hi - lo ==> s[lo..hi][i] == s[lo..][i];
  }

  /** A run that is followed by a rejected character (or the end) is the
      greedy run. */
  lemma {:induction false} PrefixLengthUnique(p: char -> bool, s: string, n: nat)
    requires n <= |s|
    requires forall i :: 0 <= i < n ==> p(s[i])
    requires n < |s| ==> !p(s[n])
    ensures PrefixLength(p, s) == n
  {
    if n > 0 {
      PrefixLengthUnique(p, s[1..], n - 1);
    }
  }

  /** No two consecutive elements of `s` both equal `c`. */
  predicate NoRepeat<T(==)>(s: seq<T>, c: T) {
    forall i :: 0 <= i < |s| - 1 ==> !(s[i] == c && s[i + 1] == c)
  }

  lemma AppendAssoc<T>(a: seq<T>, b: seq<T>, c: seq<T>)
    ensures a + (b + c) == (a + b) + c
  {
  }
}
