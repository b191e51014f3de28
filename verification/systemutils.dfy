/** `SplitFileName` and `SplitPath`: a path split at the last occurrence of
    a separator character, with `std::string`'s `npos` arithmetic. */
module SystemUtils {
  import opened Common

  /** `std::string::npos`: the largest `size_t`. */
  const NPOS: int := SIZE_LIMIT - 1

  /** A `std::string` is always shorter than `npos`. */
  predicate ValidPath(s: string) {
    |s| < NPOS
  }

  /** `find_last_of` with a one-character set: the last position holding
      `c`, or `npos` when there is none. */
  function FindLastOf(s: string, c: char): (r: int)
    requires ValidPath(s)
    ensures r == NPOS <==> c !in s
    ensures r != NPOS ==> 0 <= r < |s| && s[r] == c
    ensures r != NPOS ==> forall k :: r < k < |s| ==> s[k] != c
    decreases |s|
  {
    if |s| == 0 then NPOS
    else if s[|s| - 1] == c then |s| - 1
    else
      var r := FindLastOf(s[..|s| - 1], c);
      assert s == s[..|s| - 1] + [s[|s| - 1]];
      r
  }

  /** `substr( pos, count )`: at most `count` characters from `pos`.
      `std::string::substr` throws when `pos` is past the end; both callers
      only ever pass a position within the string. */
  function Substr(s: string, pos: int, count: int): (r: string)
    requires 0 <= pos <= |s| && 0 <= count
    ensures |r| == Min(count, |s| - pos)
    ensures r == s[pos..pos + |r|]
  {
    s[pos..pos + Min(count, |s| - pos)]
  }

  /** `SplitFileName`: the name before the last '.' and the extension after
      it. Without a '.', `find_last_of` gives `npos`: `substr( 0, npos )` is
      the whole path, and `npos + 1` wraps to 0, so the extension is the
      whole path as well. */
  function SplitFileName(path: string): (r: (string, string))
    requires ValidPath(path)
    ensures '.' in path ==> r.0 + "." + r.1 == path && '.' !in r.1
    ensures '.' !in path ==> r.0 == path && r.1 == path
  {
    var extPos := FindLastOf(path, '.');
    var fileName := Substr(path, 0, extPos);
    NposSuccessor(extPos);
    var ext := Substr(path, (extPos + 1) % SIZE_LIMIT, |path|);
    assert '.' in path ==>
      ext == path[extPos + 1..] && path == path[..extPos] + "." + path[extPos + 1..];
    (fileName, ext)
  }

  /** `npos + 1` wraps to 0; every smaller position just steps forward. */
  lemma {:induction false} NposSuccessor(p: int)
    requires 0 <= p <= NPOS
    ensures (p + 1) % SIZE_LIMIT == if p == NPOS then 0 else p + 1
  {
  }

  /** Splitting a name joined to an extension without '.' by a '.' gives
      the two parts back. */
  lemma {:induction false} JoinThenSplitFileName(fileName: string, ext: string)
    requires ValidPath(fileName + "." + ext) && '.' !in ext
    ensures SplitFileName(fileName + "." + ext) == (fileName, ext)
  {
    var path := fileName + "." + ext;
    assert path[|fileName|] == '.';
    assert forall k :: |fileName| < k < |path| ==> path[k] == ext[k - |fileName| - 1];
    assert FindLastOf(path, '.') == |fileName|;
    assert path[..|fileName|] == fileName;
    assert path[|fileName| + 1..] == ext;
  }

  /** A path ending in '.' has an empty extension and the rest as its name. */
  lemma {:induction false} TrailingDotEmptyExtension(path: string)
    requires ValidPath(path) && |path| > 0 && path[|path| - 1] == '.'
    ensures SplitFileName(path) == (path[..|path| - 1], "")
  {
  }

  /** Only the last '.' splits: earlier ones stay in the name. */
  lemma {:induction false} LastDotSplits()
    ensures SplitFileName("archive.tar.gz") == ("archive.tar", "gz")
  {
    JoinThenSplitFileName("archive.tar", "gz");
    assert "archive.tar" + "." + "gz" == "archive.tar.gz";
  }

  /** `SplitPath`: the directory up to and including the last '\\', and the
      file name after it. Without a '\\', `npos + 1` wraps to 0: the
      directory is empty and the file name is the whole path. */
  function SplitPath(path: string): (r: (string, string))
    requires ValidPath(path)
    ensures r.0 + r.1 == path
    ensures r.0 == "" || r.0[|r.0| - 1] == '\\'
    ensures '\\' !in r.1
    ensures '\\' !in path ==> r == ("", path)
  {
    var sepPos := FindLastOf(path, '\\');
    NposSuccessor(sepPos);
    var dirPos := (sepPos + 1) % SIZE_LIMIT;
    var directory := Substr(path, 0, dirPos);
    var fileName := Substr(path, dirPos, |path|);
    assert fileName == path[dirPos..];
    assert directory + fileName == path;
    (directory, fileName)
  }

  /** Splitting a directory (empty or ending in '\\') joined to a file name
      without '\\' gives the two parts back. */
  lemma {:induction false} JoinThenSplitPath(directory: string, fileName: string)
    requires ValidPath(directory + fileName)
    requires directory == "" || directory[|directory| - 1] == '\\'
    requires '\\' !in fileName
    ensures SplitPath(directory + fileName) == (directory, fileName)
  {
    var r := SplitPath(directory + fileName);
    if directory != "" {
      assert (directory + fileName)[|directory| - 1] == '\\';
    }
    assert |r.1| == |fileName|;
    assert r.0 == (directory + fileName)[..|directory|];
  }

  /** '/' is not a separator: a forward-slash path is all file name. */
  lemma {:induction false} ForwardSlashIsNotSeparator()
    ensures SplitPath("dir/file.txt") == ("", "dir/file.txt")
  {
    assert '\\' !in "dir/file.txt";
  }
}
