/** Path joining of the FileUtil helper class. The file-system helpers of
    that class are not part of this model. */
module FileUtil {
  import opened Strings

  /** The separator MergePath joins with: a backslash when either part holds
      one, a slash otherwise. */
  function Separator(dir: string, file: string): char
  {
    if '\\' in dir || '\\' in file then '\\' else '/'
  }

  /** `r` is `dir` without its trailing `sep` characters (its first `n`
      characters), then one `sep`, then `file` without its leading `sep`
      characters. */
  ghost predicate JoinedAt(r: string, dir: string, file: string, sep: char, n: int)
  {
    && 0 <= n <= |dir| && n < |r| && |r| - n - 1 <= |file|
    && r[..n] == dir[..n]
    && (forall k :: n <= k < |dir| ==> dir[k] == sep)
    && (n == 0 || dir[n - 1] != sep)
    && r[n] == sep
    && r[n + 1..] == file[|file| - (|r| - n - 1)..]
    && (forall k :: 0 <= k < |file| - (|r| - n - 1) ==> file[k] == sep)
    && (|r| == n + 1 || r[n + 1] != sep)
  }

  /** `FileUtil.MergePath(dir, file)`: join a directory and a file name with
      exactly one separator. */
  function MergePath(dir: string, file: string): (r: string)
    ensures exists n :: JoinedAt(r, dir, file, Separator(dir, file), n)
  {
    var unix := !('\\' in dir || '\\' in file);
    var sep := if unix then '/' else '\\';
    var d := TrimEnd(dir, {sep});
    var f := TrimStart(file, {sep});
    assert sep == Separator(dir, file);
    MergedJoined(dir, file, sep, d, f);
    d + [sep] + f
  }

  lemma MergedJoined(dir: string, file: string, sep: char, d: string, f: string)
    requires d == TrimEnd(dir, {sep}) && f == TrimStart(file, {sep})
    ensures JoinedAt(d + [sep] + f, dir, file, sep, |d|)
  {
    JoinedOfTrimmed(dir, file, sep, d, f);
  }

  lemma JoinedOfTrimmed(dir: string, file: string, sep: char, d: string, f: string)
    requires |d| <= |dir| && d == dir[..|d|]
    requires forall k :: |d| <= k < |dir| ==> dir[k] in {sep}
    requires d == [] || d[|d| - 1] !in {sep}
    requires |f| <= |file| && f == file[|file| - |f|..]
    requires forall k :: 0 <= k < |file| - |f| ==> file[k] in {sep}
    requires f == [] || f[0] !in {sep}
    ensures JoinedAt(d + [sep] + f, dir, file, sep, |d|)
  {
    var r := d + [sep] + f;
    assert r[..|d|] == d && r[|d|] == sep && r[|d| + 1..] == f;
    assert |r| - |d| - 1 == |f|;
  }

  /** Any string of the shape MergePath promises is MergePath's result: the
      shape determines the result. */
  lemma MergePathUnique(r: string, dir: string, file: string, n: int)
    requires JoinedAt(r, dir, file, Separator(dir, file), n)
    ensures r == MergePath(dir, file)
  {
    var sep := Separator(dir, file);
    var m := |file| - (|r| - n - 1);
    JoinedParts(r, dir, file, sep, n);
    TrimEndUnique(dir, {sep}, n);
    TrimStartUnique(file, {sep}, m);
    assert MergePath(dir, file) == TrimEnd(dir, {sep}) + [sep] + TrimStart(file, {sep});
  }

  /** The pieces of a joined shape, in the terms TrimEnd and TrimStart are characterised in. */
  lemma JoinedParts(r: string, dir: string, file: string, sep: char, n: int)
    requires JoinedAt(r, dir, file, sep, n)
    ensures var m := |file| - (|r| - n - 1);
      && 0 <= m <= |file|
      && r == dir[..n] + [sep] + file[m..]
      && (forall k :: n <= k < |dir| ==> dir[k] in {sep})
      && (n == 0 || dir[n - 1] !in {sep})
      && (forall k :: 0 <= k < m ==> file[k] in {sep})
      && (m == |file| || file[m] !in {sep})
  {
    var m := |file| - (|r| - n - 1);
    assert r == r[..n] + [sep] + r[n + 1..];
    if m < |file| {
      assert file[m] == r[n + 1];
    }
  }

  /** In backslash mode a slash is an ordinary character and is never trimmed. */
  lemma MergePathBackslashKeepsSlash()
    ensures MergePath("a/", "\\b") == "a/\\b"
  {
    assert JoinedAt("a/\\b", "a/", "\\b", '\\', 2);
    MergePathUnique("a/\\b", "a/", "\\b", 2);
  }

  /** Two empty parts give a lone slash. */
  lemma MergePathEmpty()
    ensures MergePath("", "") == "/"
  {
  }

  /** Extra separators at the end of the directory or the start of the file
      name do not change the result (they cannot change the separator). */
  lemma MergePathExtraSeparators(dir: string, file: string, extra: string)
    requires forall k :: 0 <= k < |extra| ==> extra[k] == Separator(dir, file)
    ensures MergePath(dir + extra, file) == MergePath(dir, file)
    ensures MergePath(dir, extra + file) == MergePath(dir, file)
  {
    var sep := Separator(dir, file);
    assert forall k :: 0 <= k < |extra| ==> extra[k] in {sep};
    assert Separator(dir + extra, file) == sep by {
      if '\\' in dir + extra && '\\' !in dir {
        var k :| 0 <= k < |dir + extra| && (dir + extra)[k] == '\\';
        assert extra[k - |dir|] == '\\';
      }
    }
    assert Separator(dir, extra + file) == sep by {
      if '\\' in extra + file && '\\' !in file {
        var k :| 0 <= k < |extra + file| && (extra + file)[k] == '\\';
        assert extra[k] == '\\';
      }
    }
    TrimEndAppend(dir, extra, {sep});
    TrimStartPrepend(extra, file, {sep});
  }
}
