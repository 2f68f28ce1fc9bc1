/** `VolumeManager::mkdirs`: makes sure every directory along a path exists.

    Before anything is created the path is validated: it must be absolute,
    must not contain a `.` or `..` segment, and must lie on a volume the
    daemon manages. The last segment names a file and is not created, unless
    the path ends with `/` (then the last segment is empty and the one before
    it is a directory to create). The directories are ensured from the root
    down, one per slash after the leading one.

    The managed volumes are given as a set of root paths; the file system is
    a set of existing directory paths. */
module Mkdirs {
  import opened Wrappers
  import opened Paths

  datatype MkdirsError = NotAbsolute | DotSegment | EmptySegment | NotManaged

  predicate IsAbsolute(path: string) {
    |path| > 0 && path[0] == '/'
  }

  /** The segments after the leading slash. */
  function Segments(path: string): (r: seq<string>)
    requires IsAbsolute(path)
  {
    Split(path[1..])
  }

  predicate IsDot(segment: string) {
    segment == "." || segment == ".."
  }

  /** The slash at `i` is followed by the whole segment `c`. */
  predicate ComponentAfter(path: string, i: nat, c: string) {
    && i < |path| && path[i] == '/'
    && i + 1 + |c| <= |path|
    && path[i + 1..i + 1 + |c|] == c
    && (i + 1 + |c| == |path| || path[i + 1 + |c|] == '/')
  }

  /** Somewhere a slash is followed by a `.` or `..` segment. */
  predicate HasDotComponent(path: string) {
    exists i :: 0 <= i < |path| && (ComponentAfter(path, i, ".") || ComponentAfter(path, i, ".."))
  }

  /** Two slashes in a row: an empty segment in the middle of the path. */
  predicate HasEmptyComponent(path: string) {
    exists i :: 0 <= i < |path| - 1 && path[i] == '/' && path[i + 1] == '/'
  }

  /** `path` lies on the volume rooted at `root`: `root` is a prefix that
      ends at a segment boundary of `path`. */
  predicate UnderRoot(path: string, root: string) {
    && |root| <= |path|
    && path[..|root|] == root
    && (|root| == |path| || path[|root|] == '/' || (|root| > 0 && root[|root| - 1] == '/'))
  }

  predicate Managed(path: string, roots: set<string>) {
    exists root :: root in roots && UnderRoot(path, root)
  }

  /** The directory named by the first `i + 1` segments, for each segment
      but the last. */
  function DirectoriesFor(segments: seq<string>): (r: seq<string>)
    requires |segments| > 0
  {
    seq(|segments| - 1, i requires 0 <= i < |segments| - 1 => "/" + Join(segments[..i + 1]))
  }

  /** Validates `path` and lists the directories to ensure, shallowest
      first; a rejected path yields an error and no directories at all. */
  function Plan(path: string, roots: set<string>): (r: Result<seq<string>, MkdirsError>)
    ensures !IsAbsolute(path) ==> r == Err(NotAbsolute)
    ensures IsAbsolute(path) && HasDotComponent(path) ==> r == Err(DotSegment)
    ensures IsAbsolute(path) && !HasDotComponent(path) && HasEmptyComponent(path) ==> r == Err(EmptySegment)
    ensures IsAbsolute(path) && !HasDotComponent(path) && !HasEmptyComponent(path) && !Managed(path, roots) ==>
      r == Err(NotManaged)
    ensures r.Ok? <==>
      IsAbsolute(path) && !HasDotComponent(path) && !HasEmptyComponent(path) && Managed(path, roots)
  {
    if !IsAbsolute(path) then Err(NotAbsolute)
    else
      var segments := Segments(path);
      DotSegmentIffDotComponent(path);
      EmptySegmentIffEmptyComponent(path);
      if exists j :: 0 <= j < |segments| && IsDot(segments[j]) then Err(DotSegment)
      else if exists j :: 0 <= j < |segments| - 1 && segments[j] == "" then Err(EmptySegment)
      else if !Managed(path, roots) then Err(NotManaged)
      else Ok(DirectoriesFor(segments))
  }

  /** A segment `c` of an absolute path is exactly a `c` after one of its slashes. */
  lemma SegmentIffComponent(path: string, c: string)
    requires IsAbsolute(path) && '/' !in c
    ensures (exists j :: 0 <= j < |Segments(path)| && Segments(path)[j] == c)
        <==> (exists i :: 0 <= i < |path| && ComponentAfter(path, i, c))
  {
    var s := path[1..];
    if j :| 0 <= j < |Segments(path)| && Segments(path)[j] == c {
      var p := SplitSegmentIsSegmentAt(s, j);
      SegmentAtIffComponentAfter(path, p, c);
    }
    if i :| 0 <= i < |path| && ComponentAfter(path, i, c) {
      SegmentAtIffComponentAfter(path, i, c);
      var j := SegmentAtIsSplitSegment(s, i, c);
      assert Segments(path)[j] == c;
    }
  }

  /** A segment found in `path[1..]` at `p` is the component after the slash at `p`. */
  lemma SegmentAtIffComponentAfter(path: string, p: nat, c: string)
    requires IsAbsolute(path)
    ensures SegmentAt(path[1..], p, c) <==> ComponentAfter(path, p, c)
  {
    var s := path[1..];
    if p + |c| <= |s| {
      assert s[p..p + |c|] == path[p + 1..p + 1 + |c|];
      if p > 0 {
        assert s[p - 1] == path[p];
      }
      if p + |c| < |s| {
        assert s[p + |c|] == path[p + 1 + |c|];
      }
    }
  }

  lemma DotSegmentIffDotComponent(path: string)
    requires IsAbsolute(path)
    ensures (exists j :: 0 <= j < |Segments(path)| && IsDot(Segments(path)[j])) <==> HasDotComponent(path)
  {
    SegmentIffComponent(path, ".");
    SegmentIffComponent(path, "..");
  }

  lemma EmptySegmentIffEmptyComponent(path: string)
    requires IsAbsolute(path)
    ensures (exists j :: 0 <= j < |Segments(path)| - 1 && Segments(path)[j] == "") <==> HasEmptyComponent(path)
  {
    var s := path[1..];
    if j :| 0 <= j < |Segments(path)| - 1 && Segments(path)[j] == "" {
      var p := SplitSegmentIsSegmentAt(s, j);
      assert s[p] == '/';
      assert path[p + 1] == '/';
      if p > 0 {
        assert s[p - 1] == path[p];
      }
    }
    if i :| 0 <= i < |path| - 1 && path[i] == '/' && path[i + 1] == '/' {
      assert SegmentAt(s, i, "") by {
        if i > 0 {
          assert s[i - 1] == path[i];
        }
        assert s[i] == path[i + 1];
      }
      var j := SegmentAtIsSplitSegment(s, i, "");
      assert Segments(path)[j] == "" && j < |Segments(path)| - 1;
    }
  }

  /** Applies `mkdirs` to the set of existing directories and returns the
      rejection, if any, with the directories afterwards. A rejected path
      leaves the directories exactly as they were; an accepted one adds the
      planned directories that were missing and nothing else. */
  function Ensure(existing: set<string>, path: string, roots: set<string>)
    : (r: (Option<MkdirsError>, set<string>))
    ensures r.0.None? <==> Plan(path, roots).Ok?
    ensures r.0.Some? ==> r.0.value == Plan(path, roots).error && r.1 == existing
    ensures r.0.None? ==> existing <= r.1
    ensures r.0.None? ==> forall d :: d in Plan(path, roots).value ==> d in r.1
    ensures r.0.None? ==> forall d :: d in r.1 && d !in existing ==> d in Plan(path, roots).value
  {
    match Plan(path, roots)
    case Err(e) => (Some(e), existing)
    case Ok(dirs) => (None, existing + set d | d in dirs)
  }

  /** Every planned directory is the part of the path before one of its
      slashes (other than the leading one). */
  lemma {:induction false} DirectoryIsAncestor(path: string, i: nat)
    requires IsAbsolute(path) && i < |Segments(path)| - 1
    ensures var d := DirectoriesFor(Segments(path))[i];
      1 <= |d| < |path| && d == path[..|d|] && path[|d|] == '/'
  {
    var s := path[1..];
    var segs := Split(s);
    var front := segs[..i + 1];
    JoinSplit(s);
    assert segs == front + segs[i + 1..];
    JoinAppend(front, segs[i + 1..]);
    var len := |Join(front)|;
    assert s[..len] == Join(front);
    assert s[len] == '/';
    var d := DirectoriesFor(segs)[i];
    assert d == "/" + Join(front);
    assert path == "/" + s;
    assert path[..|d|] == "/" + s[..len];
  }

  /** The part of the path before any slash but the leading one is planned,
      as the directory of the segments that precede that slash. */
  lemma {:induction false} AncestorIsDirectory(path: string, k: nat) returns (i: nat)
    requires IsAbsolute(path) && 1 <= k < |path| && path[k] == '/'
    ensures i < |Segments(path)| - 1 && DirectoriesFor(Segments(path))[i] == path[..k]
  {
    var s := path[1..];
    var a := s[..k - 1];
    var b := s[k..];
    assert s == a + "/" + b;
    SplitAppend(a, b);
    var segs := Split(s);
    i := |Split(a)| - 1;
    assert segs[..i + 1] == Split(a);
    JoinSplit(a);
    assert path[..k] == "/" + a;
  }

  /** Each planned directory is the one before it plus one more segment. */
  lemma {:induction false} DirectoriesGrowBySegment(segments: seq<string>, i: nat)
    requires i + 2 < |segments|
    ensures var dirs := DirectoriesFor(segments);
      dirs[i + 1] == dirs[i] + "/" + segments[i + 1]
  {
    assert segments[..i + 2] == segments[..i + 1] + [segments[i + 1]];
    JoinAppend(segments[..i + 1], [segments[i + 1]]);
  }

  /** The planned directories of an accepted path are exactly its proper
      ancestors, in order from the root down: each is a prefix of the path
      ending just before a slash, each such prefix is planned, each is a
      proper prefix of the next, and the path itself never is one of them. */
  lemma PlanIsAncestorsInOrder(path: string, roots: set<string>)
    requires Plan(path, roots).Ok?
    ensures var dirs := Plan(path, roots).value;
      && (forall d :: d in dirs ==> 1 <= |d| < |path| && d == path[..|d|] && path[|d|] == '/')
      && (forall k :: 1 <= k < |path| && path[k] == '/' ==> path[..k] in dirs)
      && (forall i :: 0 <= i < |dirs| - 1 ==> |dirs[i]| < |dirs[i + 1]| && dirs[i] == dirs[i + 1][..|dirs[i]|])
      && path !in dirs
  {
    var segs := Segments(path);
    var dirs := Plan(path, roots).value;
    assert dirs == DirectoriesFor(segs);
    forall d | d in dirs
      ensures 1 <= |d| < |path| && d == path[..|d|] && path[|d|] == '/'
    {
      var i :| 0 <= i < |dirs| && dirs[i] == d;
      DirectoryIsAncestor(path, i);
    }
    forall k | 1 <= k < |path| && path[k] == '/'
      ensures path[..k] in dirs
    {
      var i := AncestorIsDirectory(path, k);
    }
    forall i | 0 <= i < |dirs| - 1
      ensures |dirs[i]| < |dirs[i + 1]| && dirs[i] == dirs[i + 1][..|dirs[i]|]
    {
      DirectoriesGrowBySegment(segs, i);
    }
  }

  /** The last segment is a file name and is not created; a directory for it
      is planned exactly when the path ends with a slash. */
  lemma LastSegmentOnlyWithTrailingSlash(path: string, roots: set<string>)
    requires Plan(path, roots).Ok?
    ensures var dirs := Plan(path, roots).value;
      (|path| > 1 && path[|path| - 1] == '/') <==> path[..|path| - 1] in dirs
  {
    PlanIsAncestorsInOrder(path, roots);
  }

  /** A component of a prefix that ends before a slash is a component of
      the whole path. */
  lemma PrefixComponent(path: string, n: nat, i: nat, c: string)
    requires n < |path| && path[n] == '/'
    requires ComponentAfter(path[..n], i, c)
    ensures ComponentAfter(path, i, c)
  {
    assert path[..n][i + 1..i + 1 + |c|] == path[i + 1..i + 1 + |c|];
  }

  /** The directories planned for an accepted path would each pass the same
      validation themselves: absolute, with no `.`, `..` or empty segment. */
  lemma PlannedDirectoriesAreClean(path: string, roots: set<string>)
    requires Plan(path, roots).Ok?
    ensures forall d :: d in Plan(path, roots).value ==>
      IsAbsolute(d) && !HasDotComponent(d) && !HasEmptyComponent(d)
  {
    PlanIsAncestorsInOrder(path, roots);
    forall d | d in Plan(path, roots).value
      ensures IsAbsolute(d) && !HasDotComponent(d) && !HasEmptyComponent(d)
    {
      var n := |d|;
      assert d == path[..n];
      if HasDotComponent(d) {
        var i :| 0 <= i < |d| && (ComponentAfter(d, i, ".") || ComponentAfter(d, i, ".."));
        if ComponentAfter(d, i, ".") {
          PrefixComponent(path, n, i, ".");
        } else {
          PrefixComponent(path, n, i, "..");
        }
        assert HasDotComponent(path);
      }
    }
  }

  /** Running `mkdirs` again on its own result gives the same outcome and
      changes nothing. */
  lemma EnsureIsIdempotent(existing: set<string>, path: string, roots: set<string>)
    ensures var first := Ensure(existing, path, roots);
      Ensure(first.1, path, roots) == first
  {
  }

  /** When every planned directory already exists, `mkdirs` succeeds and
      leaves the directories as they were. */
  lemma EnsureOnExistingChangesNothing(existing: set<string>, path: string, roots: set<string>)
    requires Plan(path, roots).Ok?
    requires forall d :: d in Plan(path, roots).value ==> d in existing
    ensures Ensure(existing, path, roots) == (None, existing)
  {
    var dirs := Plan(path, roots).value;
    assert existing + (set d | d in dirs) == existing;
  }
}
