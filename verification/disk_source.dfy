/** `VolumeManager::DiskSource`: an immutable classification rule that gives
    a nickname and flags to every block device whose sysfs path matches the
    rule's pattern. */
module DiskSources {
  import opened FnMatch
  import opened GlobSemantics

  type int32 = x: int | -0x8000_0000 <= x < 0x8000_0000

  /** What C sees of a `std::string` through `c_str()`: the characters before
      the first NUL. */
  function CString(s: string): (r: string)
    ensures |r| <= |s| && r == s[..|r|]
    ensures '\0' !in r
    ensures |r| < |s| ==> s[|r|] == '\0'
  {
    if |s| == 0 || s[0] == '\0' then []
    else
      var tail := CString(s[1..]);
      assert s[..|tail| + 1] == [s[0]] + s[1..][..|tail|];
      [s[0]] + tail
  }

  /** A rule: sysfs path pattern, nickname, flags. Nothing changes it after
      construction. */
  datatype DiskSource = DiskSource(sysPattern: string, nickname: string, flags: int32)
  {
    /** `matches`: `fnmatch` with flags 0 over the C strings of both sides. */
    predicate Matches(sysPath: string) {
      Match(CString(sysPattern), CString(sysPath))
    }

    function GetNickname(): (r: string) {
      nickname
    }

    function GetFlags(): (r: int32) {
      flags
    }
  }

  /** A string without NUL reaches C unchanged. */
  lemma {:induction false} CStringOfPlainString(s: string)
    requires '\0' !in s
    ensures CString(s) == s
    decreases |s|
  {
    if |s| > 0 {
      assert s[0] in s;
      assert forall c :: c in s[1..] ==> c in s;
      CStringOfPlainString(s[1..]);
    }
  }

  /** For NUL-free pattern and path, `matches` holds exactly when the whole
      path is in the pattern's language. */
  lemma MatchesIffPathInPatternLanguage(source: DiskSource, sysPath: string)
    requires '\0' !in source.sysPattern && '\0' !in sysPath
    ensures source.Matches(sysPath) <==> Denotes(Lex(source.sysPattern), sysPath)
  {
    CStringOfPlainString(source.sysPattern);
    CStringOfPlainString(sysPath);
    MatchIffDenotes(source.sysPattern, sysPath);
  }

  /** A rule whose pattern has no special characters matches only the
      identical path. */
  lemma LiteralSourceMatchesOnlyItself(source: DiskSource, sysPath: string)
    requires '\0' !in source.sysPattern && '\0' !in sysPath
    requires forall i :: 0 <= i < |source.sysPattern| ==> !IsMeta(source.sysPattern[i])
    ensures source.Matches(sysPath) <==> sysPath == source.sysPattern
  {
    CStringOfPlainString(source.sysPattern);
    CStringOfPlainString(sysPath);
    LiteralPatternMatchesOnlyItself(source.sysPattern, sysPath);
  }

  /** The getters return what the constructor was given, and whether a rule
      matches a path depends on its pattern alone. */
  lemma SourceIsImmutable(pattern: string, nickname: string, flags: int32,
                          other: DiskSource, sysPath: string)
    requires other.sysPattern == pattern
    ensures DiskSource(pattern, nickname, flags).GetNickname() == nickname
    ensures DiskSource(pattern, nickname, flags).GetFlags() == flags
    ensures DiskSource(pattern, nickname, flags).Matches(sysPath) == other.Matches(sysPath)
  {
  }

  /** Only the part of a path before a NUL takes part in matching. */
  lemma MatchingStopsAtNul(source: DiskSource, sysPath: string, suffix: string)
    requires '\0' !in sysPath
    ensures source.Matches(sysPath + ['\0'] + suffix) == source.Matches(sysPath)
  {
    var full := sysPath + ['\0'] + suffix;
    CStringOfPlainString(sysPath);
    CStringPrefix(sysPath, suffix);
  }

  lemma {:induction false} CStringPrefix(s: string, suffix: string)
    requires '\0' !in s
    ensures CString(s + ['\0'] + suffix) == s
    decreases |s|
  {
    if |s| > 0 {
      assert (s + ['\0'] + suffix)[1..] == s[1..] + ['\0'] + suffix;
      CStringPrefix(s[1..], suffix);
      assert s == [s[0]] + s[1..];
    }
  }

  /** A rule `*` followed by a literal tail classifies exactly the paths
      that end with that tail, whatever precedes it (slashes included). */
  lemma StarLiteralRuleMatchesSuffix(source: DiskSource, sysPath: string)
    requires |source.sysPattern| > 0 && source.sysPattern[0] == '*'
    requires forall i :: 1 <= i < |source.sysPattern| ==> !IsMeta(source.sysPattern[i])
    requires '\0' !in source.sysPattern && '\0' !in sysPath
    ensures var tail := source.sysPattern[1..];
      source.Matches(sysPath) <==> |tail| <= |sysPath| && sysPath[|sysPath| - |tail|..] == tail
  {
    var pattern := source.sysPattern;
    var tail := pattern[1..];
    MatchesIffPathInPatternLanguage(source, sysPath);
    assert Lex(pattern) == [AnyString] + Lex(tail);
    assert Lex(pattern)[1..] == Lex(tail);
    if source.Matches(sysPath) {
      var k :| 0 <= k <= |sysPath| && Denotes(Lex(tail), sysPath[k..]);
      MatchIffDenotes(tail, sysPath[k..]);
      LiteralPatternMatchesOnlyItself(tail, sysPath[k..]);
    }
    if |tail| <= |sysPath| && sysPath[|sysPath| - |tail|..] == tail {
      var k := |sysPath| - |tail|;
      MatchIffDenotes(tail, sysPath[k..]);
      LiteralPatternMatchesOnlyItself(tail, sysPath[k..]);
      assert Denotes(Lex(pattern)[1..], sysPath[k..]);
    }
  }

  /** A rule for the first SCSI disk at any bus position classifies such a
      device and leaves its neighbour unclassified. */
  lemma SdcardRuleExample(source: DiskSource, sda: string, sdb: string)
    requires source == DiskSource("*/block/sda", "sdcard", 0)
    requires sda == "/devices/soc/block/sda" && sdb == "/devices/soc/block/sdb"
    ensures source.Matches(sda) && !source.Matches(sdb)
    ensures source.GetNickname() == "sdcard"
  {
    var tail := source.sysPattern[1..];
    assert forall i :: 1 <= i < |source.sysPattern| ==> !IsMeta(source.sysPattern[i]);
    StarLiteralRuleMatchesSuffix(source, sda);
    StarLiteralRuleMatchesSuffix(source, sdb);
    assert sda[|sda| - |tail|..] == tail;
    assert sdb[|sdb| - 1] != tail[|tail| - 1];
  }
}
