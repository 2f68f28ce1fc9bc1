/** Splitting a path into its `/`-separated segments and joining segments
    back, with the round-trip and concatenation facts `mkdirs` relies on. */
module Paths {

  /** The segments of `s` between slashes; `Split("")` is `[""]`, and a
      trailing slash yields a trailing empty segment. */
  function Split(s: string): (r: seq<string>)
    ensures |r| > 0
    ensures forall i :: 0 <= i < |r| ==> '/' !in r[i]
    decreases |s|
  {
    if |s| == 0 then [""]
    else if s[0] == '/' then [""] + Split(s[1..])
    else
      var t := Split(s[1..]);
      [[s[0]] + t[0]] + t[1..]
  }

  /** Segments separated by single slashes. */
  function Join(segments: seq<string>): (r: string)
    decreases |segments|
  {
    if |segments| == 0 then ""
    else if |segments| == 1 then segments[0]
    else segments[0] + "/" + Join(segments[1..])
  }

  /** Joining the segments of a string gives the string back. */
  lemma {:induction false} JoinSplit(s: string)
    ensures Join(Split(s)) == s
    decreases |s|
  {
    if |s| > 0 {
      JoinSplit(s[1..]);
      var t := Split(s[1..]);
      if s[0] == '/' {
        assert Split(s) == [""] + t;
        assert Split(s)[1..] == t;
      } else {
        var r := Split(s);
        assert r == [[s[0]] + t[0]] + t[1..];
        if |t| == 1 {
          assert Join(r) == [s[0]] + t[0];
        } else {
          assert r[1..] == t[1..];
          assert Join(t) == t[0] + "/" + Join(t[1..]);
        }
      }
      assert s == [s[0]] + s[1..];
    }
  }

  /** Splitting a string that has a slash at a given point splits both sides
      independently. */
  lemma {:induction false} SplitAppend(a: string, b: string)
    ensures Split(a + "/" + b) == Split(a) + Split(b)
    decreases |a|
  {
    if |a| == 0 {
      assert a + "/" + b == "/" + b;
      assert ("/" + b)[1..] == b;
    } else {
      var s := a + "/" + b;
      assert s[0] == a[0];
      assert s[1..] == a[1..] + "/" + b;
      SplitAppend(a[1..], b);
    }
  }

  /** Joining a concatenation puts a single slash between the two halves. */
  lemma {:induction false} JoinAppend(xs: seq<string>, ys: seq<string>)
    requires |xs| > 0 && |ys| > 0
    ensures Join(xs + ys) == Join(xs) + "/" + Join(ys)
    decreases |xs|
  {
    if |xs| == 1 {
      assert (xs + ys)[1..] == ys;
    } else {
      assert (xs + ys)[1..] == xs[1..] + ys;
      JoinAppend(xs[1..], ys);
    }
  }

  /** A string without slashes is a single segment. */
  lemma {:induction false} SplitNoSlash(s: string)
    requires '/' !in s
    ensures Split(s) == [s]
    decreases |s|
  {
    if |s| > 0 {
      assert s[0] in s;
      assert forall c :: c in s[1..] ==> c in s;
      SplitNoSlash(s[1..]);
      assert s == [s[0]] + s[1..];
    }
  }

  /** Splitting joined slash-free segments gives the segments back. */
  lemma {:induction false} SplitJoin(segments: seq<string>)
    requires |segments| > 0
    requires forall i :: 0 <= i < |segments| ==> '/' !in segments[i]
    ensures Split(Join(segments)) == segments
    decreases |segments|
  {
    SplitNoSlash(segments[0]);
    if |segments| > 1 {
      SplitJoin(segments[1..]);
      SplitAppend(segments[0], Join(segments[1..]));
      assert segments == [segments[0]] + segments[1..];
    }
  }

  /** `c` stands as a whole segment of `s` at position `p`: it starts at the
      beginning or after a slash, and ends at the end or before a slash. */
  predicate SegmentAt(s: string, p: nat, c: string) {
    && p + |c| <= |s|
    && (p == 0 || s[p - 1] == '/')
    && s[p..p + |c|] == c
    && (p + |c| == |s| || s[p + |c|] == '/')
  }

  /** A whole segment found in the text is one of the split's segments; it
      is the last one exactly when it reaches the end of the text. */
  lemma SegmentAtIsSplitSegment(s: string, p: nat, c: string) returns (j: nat)
    requires '/' !in c && SegmentAt(s, p, c)
    ensures j < |Split(s)| && Split(s)[j] == c
    ensures j < |Split(s)| - 1 <==> p + |c| < |s|
  {
    var rest := s[p..];
    var tailSplit: seq<string>;
    if p + |c| == |s| {
      assert rest == c;
      SplitNoSlash(c);
      tailSplit := [c];
    } else {
      var tail := s[p + |c| + 1..];
      assert rest == c + "/" + tail;
      SplitAppend(c, tail);
      SplitNoSlash(c);
      tailSplit := [c] + Split(tail);
    }
    assert Split(rest) == tailSplit;
    if p == 0 {
      assert s == rest;
      j := 0;
    } else {
      var pre := s[..p - 1];
      assert s == pre + "/" + rest;
      SplitAppend(pre, rest);
      j := |Split(pre)|;
    }
  }

  /** Every segment of the split stands as a whole segment somewhere in the
      text, reaching the end of the text exactly when it is the last one. */
  lemma SplitSegmentIsSegmentAt(s: string, j: nat) returns (p: nat)
    requires j < |Split(s)|
    ensures SegmentAt(s, p, Split(s)[j])
    ensures j < |Split(s)| - 1 <==> p + |Split(s)[j]| < |s|
  {
    var segs := Split(s);
    var c := segs[j];
    JoinSplit(s);
    var post := Join(segs[j..]);
    if j < |segs| - 1 {
      assert segs[j..] == [c] + segs[j + 1..];
      JoinAppend([c], segs[j + 1..]);
      assert post == c + "/" + Join(segs[j + 1..]);
    } else {
      assert segs[j..] == [c];
      assert post == c;
    }
    if j == 0 {
      assert segs[j..] == segs;
      assert s == post;
      p := 0;
    } else {
      var pre := Join(segs[..j]);
      assert segs == segs[..j] + segs[j..];
      JoinAppend(segs[..j], segs[j..]);
      assert s == pre + "/" + post;
      p := |pre| + 1;
      assert s[p..] == post;
    }
    assert s[p..] == post;
    assert s[p..][..|c|] == c;
  }
}
