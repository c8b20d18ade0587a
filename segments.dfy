/** The string operations the file classification relies on: JavaScript's
    `String.prototype.split` with a one-character separator followed by
    `Array.prototype.pop`, which is also the last segment of a POSIX path. */
module Segments {

  /** Glues `parts` back together with one `sep` between neighbours. */
  function Join(parts: seq<string>, sep: char): string
  {
    if |parts| == 0 then ""
    else if |parts| == 1 then parts[0]
    else Join(parts[..|parts| - 1], sep) + [sep] + parts[|parts| - 1]
  }

  /** `s.split(sep)`: the pieces of `s` between separators, in order. There is
      always at least one piece, and `"".split(sep)` is `[""]`. */
  function Split(s: string, sep: char): (parts: seq<string>)
    ensures |parts| >= 1
    ensures forall i :: 0 <= i < |parts| ==> sep !in parts[i]
    ensures Join(parts, sep) == s
    decreases |s|
  {
    if |s| == 0 then [""]
    else
      var init := Split(s[..|s| - 1], sep);
      var c := s[|s| - 1];
      assert s == s[..|s| - 1] + [c];
      if c == sep then
        JoinAppendEmpty(init, sep);
        init + [""]
      else
        JoinExtendLast(init, sep, c);
        init[..|init| - 1] + [init[|init| - 1] + [c]]
  }

  lemma JoinAppendEmpty(parts: seq<string>, sep: char)
    requires |parts| >= 1
    ensures Join(parts + [""], sep) == Join(parts, sep) + [sep]
  {
    assert (parts + [""])[..|parts|] == parts;
  }

  lemma JoinExtendLast(parts: seq<string>, sep: char, c: char)
    requires |parts| >= 1
    ensures Join(parts[..|parts| - 1] + [parts[|parts| - 1] + [c]], sep) == Join(parts, sep) + [c]
  {
    var k := |parts| - 1;
    var ext := parts[..k] + [parts[k] + [c]];
    if k > 0 {
      assert ext[..k] == parts[..k];
    }
  }

  /** The contract of `Split` determines it: any non-empty sequence of
      `sep`-free parts that joins to `s` is `s.split(sep)`. */
  lemma {:induction false} SplitUnique(s: string, sep: char, parts: seq<string>)
    requires |parts| >= 1 && forall i :: 0 <= i < |parts| ==> sep !in parts[i]
    requires Join(parts, sep) == s
    ensures parts == Split(s, sep)
    decreases |s|
  {
    var k := |parts| - 1;
    JoinEndsWithLast(parts, sep);
    if |s| > 0 {
      if parts[k] == [] {
        var front := parts[..k];
        assert Join(front, sep) == s[..|s| - 1];
        SplitUnique(s[..|s| - 1], sep, front);
        SplitAfterSeparator(s, sep);
        assert parts == front + [""];
      } else {
        var shorter := DropLastChar(parts);
        DropLastCharJoin(parts, sep);
        SplitUnique(s[..|s| - 1], sep, shorter);
        SplitAfterLastChar(s, sep, parts);
      }
    }
  }

  lemma SplitAfterSeparator(s: string, sep: char)
    requires |s| > 0 && s[|s| - 1] == sep
    ensures Split(s, sep) == Split(s[..|s| - 1], sep) + [""]
  {
  }

  lemma SplitAfterLastChar(s: string, sep: char, parts: seq<string>)
    requires |parts| >= 1 && parts[|parts| - 1] != [] && sep !in parts[|parts| - 1]
    requires Join(parts, sep) == s
    requires DropLastChar(parts) == Split(s[..|s| - 1], sep)
    ensures parts == Split(s, sep)
  {
    var k, last := |parts| - 1, parts[|parts| - 1];
    var c := last[|last| - 1];
    JoinEndsWithLastChar(parts, sep);
    SplitAfterChar(s, sep, c);
    var init := DropLastChar(parts);
    assert |init| - 1 == k;
    calc {
      Split(s, sep);
      init[..k] + [init[k] + [c]];
      parts[..k] + [last];
      { LastSplit(parts); }
      parts;
    }
  }

  lemma LastSplit<T>(xs: seq<T>)
    requires |xs| >= 1
    ensures xs[..|xs| - 1] + [xs[|xs| - 1]] == xs
  {
  }

  lemma JoinEndsWithLastChar(parts: seq<string>, sep: char)
    requires |parts| >= 1 && parts[|parts| - 1] != []
    ensures var s, last := Join(parts, sep), parts[|parts| - 1];
      |s| > 0 && s[|s| - 1] == last[|last| - 1]
  {
    JoinEndsWithLast(parts, sep);
  }

  lemma SplitAfterChar(s: string, sep: char, c: char)
    requires |s| > 0 && s[|s| - 1] == c && c != sep
    ensures var init := Split(s[..|s| - 1], sep);
      Split(s, sep) == init[..|init| - 1] + [init[|init| - 1] + [c]]
  {
  }

  lemma DropLastCharJoin(parts: seq<string>, sep: char)
    requires |parts| >= 1 && parts[|parts| - 1] != []
    requires forall i :: 0 <= i < |parts| ==> sep !in parts[i]
    ensures var shorter := DropLastChar(parts);
      |Join(parts, sep)| > 0 && Join(shorter, sep) == Join(parts, sep)[..|Join(parts, sep)| - 1] &&
      forall i :: 0 <= i < |shorter| ==> sep !in shorter[i]
  {
    var shorter, k := DropLastChar(parts), |parts| - 1;
    var last := parts[k];
    assert shorter[..k] + [shorter[k] + [last[|last| - 1]]] == parts;
    JoinExtendLast(shorter, sep, last[|last| - 1]);
    forall i | 0 <= i < |shorter| ensures sep !in shorter[i] {
      if i < k { assert shorter[i] == shorter[..k][i] == parts[i]; }
      else { assert shorter[k] == last[..|last| - 1]; }
    }
  }

  /** `parts` with the last character of its non-empty last part removed. */
  function DropLastChar(parts: seq<string>): (shorter: seq<string>)
    requires |parts| >= 1 && parts[|parts| - 1] != []
    ensures |shorter| == |parts|
    ensures var k, last := |parts| - 1, parts[|parts| - 1];
      shorter[..k] == parts[..k] && shorter[k] + [last[|last| - 1]] == last
  {
    var k, last := |parts| - 1, parts[|parts| - 1];
    parts[..k] + [last[..|last| - 1]]
  }

  /** A join ends with its last part, and a separator stands right before it
      unless that part is the whole string. */
  lemma JoinEndsWithLast(parts: seq<string>, sep: char)
    requires |parts| >= 1
    ensures var s, last := Join(parts, sep), parts[|parts| - 1];
      |last| <= |s| && s[|s| - |last|..] == last &&
      (|parts| == 1 <==> |last| == |s|) &&
      (|parts| > 1 ==> s[|s| - |last| - 1] == sep)
  {
    if |parts| > 1 {
      var prefix := Join(parts[..|parts| - 1], sep) + [sep];
      var last := parts[|parts| - 1];
      assert Join(parts, sep) == prefix + last;
      assert (prefix + last)[|prefix| - 1] == sep;
    }
  }

  /** `s.split(sep).pop()`: the longest suffix of `s` free of `sep`. It is the
      whole of `s` exactly when `s` holds no `sep`. */
  function LastSegment(s: string, sep: char): (r: string)
    ensures sep !in r
    ensures |r| <= |s| && s[|s| - |r|..] == r
    ensures |r| < |s| ==> s[|s| - |r| - 1] == sep
    ensures sep !in s <==> r == s
  {
    var parts := Split(s, sep);
    JoinEndsWithLast(parts, sep);
    var r := parts[|parts| - 1];
    assert |r| < |s| ==> s[|s| - |r| - 1] in s;
    r
  }

  /** The contract of `LastSegment` pins its result down: any `sep`-free
      suffix that starts the string or follows a `sep` is that segment. */
  lemma LastSegmentUnique(s: string, sep: char, t: string)
    requires |t| <= |s| && s[|s| - |t|..] == t && sep !in t
    requires |t| < |s| ==> s[|s| - |t| - 1] == sep
    ensures t == LastSegment(s, sep)
  {
    var r := LastSegment(s, sep);
  }

  /** Every `sep`-free suffix of `s` is a suffix of the last segment. */
  lemma SuffixOfLastSegment(s: string, sep: char, t: string)
    requires |t| <= |s| && s[|s| - |t|..] == t && sep !in t
    ensures var r := LastSegment(s, sep); |t| <= |r| && r[|r| - |t|..] == t
  {
    var r := LastSegment(s, sep);
    SegmentCoversSuffix(s, sep, t);
    SuffixesAgree(s, r, t);
  }

  lemma SegmentCoversSuffix(s: string, sep: char, t: string)
    requires |t| <= |s| && s[|s| - |t|..] == t && sep !in t
    ensures |t| <= |LastSegment(s, sep)|
  {
  }

  /** Of two suffixes of one string, the shorter is a suffix of the longer. */
  lemma SuffixesAgree(s: string, a: string, b: string)
    requires EndsWith(s, a) && EndsWith(s, b) && |b| <= |a|
    ensures EndsWith(a, b)
  {
    assert a[|a| - |b|..] == s[|s| - |b|..];
  }

  predicate EndsWith(s: string, suffix: string)
  {
    |suffix| <= |s| && s[|s| - |suffix|..] == suffix
  }

  /** The last `inner`-segment, when free of `outer`, ends the last
      `outer`-segment. */
  lemma NestedSegment(s: string, inner: char, outer: char)
    requires outer !in LastSegment(s, inner)
    ensures EndsWith(LastSegment(s, outer), LastSegment(s, inner))
  {
    SuffixOfLastSegment(s, outer, LastSegment(s, inner));
  }

  /** ... and so does that segment with the `inner` before it, if it has one. */
  lemma NestedSegmentWithSeparator(s: string, inner: char, outer: char, t: string)
    requires inner != outer && t == LastSegment(s, inner) && outer !in t && |t| < |s|
    ensures EndsWith(LastSegment(s, outer), [inner] + t)
  {
    var u := s[|s| - |t| - 1..];
    assert u[0] == inner;
    assert u[1..] == t;
    assert u == [inner] + t;
    SuffixOfLastSegment(s, outer, u);
  }

  /** Both facts together, for a last `inner`-segment `t` free of `outer`. */
  lemma NestedSegmentShape(s: string, inner: char, outer: char, t: string)
    requires inner != outer && t == LastSegment(s, inner) && outer !in t
    ensures EndsWith(LastSegment(s, outer), t)
    ensures s == t || EndsWith(LastSegment(s, outer), [inner] + t)
  {
    NestedSegment(s, inner, outer);
    if s != t {
      assert |t| < |s|;
      NestedSegmentWithSeparator(s, inner, outer, t);
    }
  }
}
