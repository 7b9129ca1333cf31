/**
 * The path helpers of the I/O module: splitting a '/'-separated path at its
 * last separator, joining two paths, and trimming trailing whitespace from a
 * line. C strings are modelled by their characters before the terminating
 * NUL.
 *
 * `path_get_directory` and `path_get_filename` are given twice: as compiled
 * (`...AsWritten`) and as their own test-suite expects them; the rest of the
 * model uses the expected ones (see the findings in README).
 */
module Paths {
  import opened Bytes

  // ---------------------------------------------------------------------
  // trim_end
  // ---------------------------------------------------------------------

  /** `is_space`: blank, tab, carriage return or line feed. */
  predicate IsSpace(c: char)
  {
    c == ' ' || c == '\t' || c == '\r' || c == '\n'
  }

  /**
   * `trim_end(line)`: the length of the line without its trailing
   * whitespace, found by walking back from the end.
   */
  method TrimEnd(line: string) returns (n: nat)
    ensures n <= |line|
    ensures forall i :: n <= i < |line| ==> IsSpace(line[i])
    ensures n > 0 ==> !IsSpace(line[n - 1])
    ensures n == TrimmedLength(line)
  {
    n := |line|;
    assert line[..n] == line;
    while n > 0 && IsSpace(line[n - 1])
      invariant n <= |line|
      invariant forall i :: n <= i < |line| ==> IsSpace(line[i])
      invariant TrimmedLength(line[..n]) == TrimmedLength(line)
    {
      assert line[..n][..n - 1] == line[..n - 1];
      n := n - 1;
    }
    assert line[..n] == line[..n][..n];
  }

  /** The trimmed length, dropping one trailing whitespace character at a time. */
  function TrimmedLength(line: string): (n: nat)
    ensures n <= |line|
    decreases |line|
  {
    if line != [] && IsSpace(line[|line| - 1]) then TrimmedLength(line[..|line| - 1]) else |line|
  }

  /** Trimming is idempotent: the trimmed line has nothing left to trim. */
  lemma {:induction false} TrimEndIdempotent(line: string)
    ensures TrimmedLength(line[..TrimmedLength(line)]) == TrimmedLength(line)
    decreases |line|
  {
    if line != [] && IsSpace(line[|line| - 1]) {
      var shorter := line[..|line| - 1];
      TrimEndIdempotent(shorter);
      assert shorter[..TrimmedLength(shorter)] == line[..TrimmedLength(line)];
    } else {
      assert line[..|line|] == line;
    }
  }

  // ---------------------------------------------------------------------
  // Splitting at the last separator
  // ---------------------------------------------------------------------

  /** `strrchr(p, c)`: the index of the last occurrence of c, if any. */
  function LastIndexOf(p: string, c: char): (r: Option<nat>)
    ensures r.None? ==> forall i :: 0 <= i < |p| ==> p[i] != c
    ensures r.Some? ==> r.value < |p| && p[r.value] == c
    ensures r.Some? ==> forall i :: r.value < i < |p| ==> p[i] != c
  {
    if p == [] then None
    else if p[|p| - 1] == c then Some(|p| - 1)
    else LastIndexOf(p[..|p| - 1], c)
  }

  /** The last occurrence is the one with no further occurrence after it. */
  lemma LastIndexOfUnique(p: string, c: char, i: nat)
    requires i < |p| && p[i] == c
    requires forall k :: i < k < |p| ==> p[k] != c
    ensures LastIndexOf(p, c) == Some(i)
  {
  }

  /** `path_get_directory` as compiled: everything strictly before the last '/'. */
  function PathGetDirectoryAsWritten(p: string): (d: string)
    ensures |d| <= |p| && d == p[..|d|]
    ensures '/' !in p ==> d == ""
    ensures '/' in p ==> |d| < |p| && p[|d|] == '/' && '/' !in p[|d| + 1..]
  {
    match LastIndexOf(p, '/')
    case None => ""
    case Some(i) => p[..i]
  }

  /** `path_get_filename` as compiled: the suffix starting AT the last '/'. */
  function PathGetFilenameAsWritten(p: string): (f: string)
    ensures |f| <= |p| && f == p[|p| - |f|..]
    ensures '/' !in p ==> f == p
    ensures '/' in p ==> f != [] && f[0] == '/' && '/' !in f[1..]
  {
    match LastIndexOf(p, '/')
    case None => p
    case Some(i) => p[i..]
  }

  /** As compiled, the two halves always concatenate back to the path. */
  lemma SplitAsWrittenRoundTrip(p: string)
    ensures PathGetDirectoryAsWritten(p) + PathGetFilenameAsWritten(p) == p
  {
    match LastIndexOf(p, '/')
    case None =>
    case Some(i) =>
      assert p[..i] + p[i..] == p;
  }

  /**
   * As compiled, the file name of a path with a separator keeps the
   * separator, and a path whose only separator leads has no directory:
   * `path_get_filename("/home/user/file.txt")` is "/file.txt" where
   * "file.txt" is expected, and `path_get_directory("/file")` is "" where
   * "/" is expected.
   */
  lemma SplitAsWrittenExamples()
    ensures PathGetFilenameAsWritten("/home/user/file.txt") == "/file.txt"
    ensures PathGetDirectoryAsWritten("/file") == ""
    ensures PathGetDirectoryAsWritten("/") == ""
  {
    var p := "/home/user/file.txt";
    LastIndexOfUnique(p, '/', 10);
    assert p[10..] == "/file.txt";
    LastIndexOfUnique("/file", '/', 0);
    LastIndexOfUnique("/", '/', 0);
  }

  /**
   * The directory part as the tests expect it: "" without a separator, "/"
   * when the only separator is the leading one, else everything before the
   * last separator.
   */
  function PathGetDirectory(p: string): (d: string)
    ensures '/' !in p ==> d == ""
    ensures p != [] && p[0] == '/' && '/' !in p[1..] ==> d == "/"
    ensures '/' in p && !(p[0] == '/' && '/' !in p[1..]) ==>
      0 < |d| < |p| && d == p[..|d|] && p[|d|] == '/' && '/' !in p[|d| + 1..]
  {
    match LastIndexOf(p, '/')
    case None => ""
    case Some(i) => if i == 0 then "/" else p[..i]
  }

  /** The file-name part as the tests expect it: everything after the last separator. */
  function PathGetFilename(p: string): (f: string)
    ensures '/' !in f
    ensures |f| <= |p| && f == p[|p| - |f|..]
    ensures '/' !in p ==> f == p
    ensures '/' in p ==> |f| < |p| && p[|p| - |f| - 1] == '/'
  {
    match LastIndexOf(p, '/')
    case None => p
    case Some(i) => p[i + 1..]
  }

  /** The corrected split reproduces the expectations of the test suite. */
  lemma SplitExamples()
    ensures PathGetDirectory("/home/user/file.txt") == "/home/user"
    ensures PathGetDirectory("/file") == "/" && PathGetDirectory("/") == "/"
    ensures PathGetDirectory("file.txt") == "" && PathGetDirectory("") == ""
    ensures PathGetDirectory("/root/") == "/root"
    ensures PathGetFilename("/home/user/file.txt") == "file.txt"
    ensures PathGetFilename("/home/user/") == "" && PathGetFilename("/") == ""
    ensures PathGetFilename("nodir") == "nodir"
  {
    var p := "/home/user/file.txt";
    LastIndexOfUnique(p, '/', 10);
    assert p[..10] == "/home/user" && p[11..] == "file.txt";
    LastIndexOfUnique("/file", '/', 0);
    LastIndexOfUnique("/", '/', 0);
    LastIndexOfUnique("/root/", '/', 5);
    assert "/root/"[..5] == "/root";
    LastIndexOfUnique("/home/user/", '/', 10);
    assert '/' !in "nodir" && '/' !in "file.txt";
  }

  // ---------------------------------------------------------------------
  // path_join
  // ---------------------------------------------------------------------

  /**
   * `path_join(p1, p2)`: p1 when p2 is empty, p2 when it is absolute, else
   * p1 and p2 with one '/' between them unless p1 is empty or already ends
   * with one.
   */
  function PathJoin(p1: string, p2: string): (r: string)
    ensures p2 == [] ==> r == p1
    ensures p2 != [] && p2[0] == '/' ==> r == p2
    ensures p2 != [] ==> |r| >= |p2| && r[|r| - |p2|..] == p2
    ensures p2 != [] && p2[0] != '/' ==> |p1| <= |r| <= |p1| + 1 + |p2| && r[..|p1|] == p1
  {
    if |p2| == 0 then p1
    else if p2[0] == '/' then p2
    else
      var sep := if p1 != [] && p1[|p1| - 1] != '/' then "/" else "";
      assert (p1 + sep + p2)[..|p1|] == p1;
      assert (p1 + sep + p2)[|p1 + sep|..] == p2;
      p1 + sep + p2
  }

  /** The separator `path_join` inserts: exactly one, unless there already is one. */
  lemma JoinSeparator(p1: string, p2: string)
    requires p2 != [] && p2[0] != '/'
    ensures p1 == [] ==> PathJoin(p1, p2) == p2
    ensures p1 != [] && p1[|p1| - 1] == '/' ==> PathJoin(p1, p2) == p1 + p2
    ensures p1 != [] && p1[|p1| - 1] != '/' ==> PathJoin(p1, p2) == p1 + "/" + p2
  {
  }

  /** The file name of a joined path is the name that was joined. */
  lemma FilenameOfJoin(d: string, f: string)
    requires f != [] && '/' !in f
    ensures PathGetFilename(PathJoin(d, f)) == f
  {
    var r := PathJoin(d, f);
    var g := PathGetFilename(r);
    JoinSeparator(d, f);
    if d == [] {
      assert r == f;
    } else {
      assert r[|r| - |f| - 1] == '/';
    }
  }

  /**
   * Splitting and joining are inverse: a path with a non-empty file name and
   * no doubled separator is the join of its directory and its file name.
   */
  lemma {:induction false} JoinOfSplit(p: string)
    requires PathGetFilename(p) != []
    requires forall i :: 0 < i < |p| && p[i] == '/' ==> p[i - 1] != '/'
    ensures PathJoin(PathGetDirectory(p), PathGetFilename(p)) == p
  {
    var last := LastIndexOf(p, '/');
    if last.Some? {
      var i := last.value;
      assert p[i + 1] != '/';
      JoinAtSeparator(p, i);
    }
  }

  /** Joining the parts on either side of a single separator gives the path back. */
  lemma JoinAtSeparator(p: string, i: nat)
    requires i + 1 < |p| && p[i] == '/' && p[i + 1] != '/'
    requires i > 0 ==> p[i - 1] != '/'
    ensures PathJoin(if i == 0 then "/" else p[..i], p[i + 1..]) == p
  {
    var f := p[i + 1..];
    if i == 0 {
      assert "/" + f == p;
    } else {
      assert p[..i] + "/" + f == p;
    }
  }
}
