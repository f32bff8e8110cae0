/** The two POSIX path operations the scripts use: `os.path.join` of a
    directory and a name, and `os.path.basename`. */
module Paths {

  /** `os.path.join(directory, name)`: an absolute `name` replaces the
      directory; otherwise a `/` is inserted unless the directory is empty or
      already ends in one. */
  function JoinPath(directory: string, name: string): (p: string)
    ensures |name| <= |p| && p[|p| - |name|..] == name
  {
    if |name| > 0 && name[0] == '/' then name
    else if |directory| == 0 || directory[|directory| - 1] == '/' then directory + name
    else directory + "/" + name
  }

  /** A relative name is placed inside the directory, after exactly one
      separator. */
  lemma JoinRelative(directory: string, name: string)
    requires |name| == 0 || name[0] != '/'
    requires |directory| > 0 && directory[|directory| - 1] != '/'
    ensures JoinPath(directory, name) == directory + "/" + name
  {
  }

  /** An absolute name discards the directory. */
  lemma JoinAbsolute(directory: string, name: string)
    requires |name| > 0 && name[0] == '/'
    ensures JoinPath(directory, name) == name
  {
  }

  /** `os.path.basename(p)`: the longest suffix of `p` without a `/`. */
  function Basename(p: string): (b: string)
    ensures |b| <= |p| && b == p[|p| - |b|..]
    ensures '/' !in b
    ensures |b| < |p| ==> p[|p| - |b| - 1] == '/'
    decreases |p|
  {
    if |p| == 0 || p[|p| - 1] == '/' then []
    else
      var b := Basename(p[..|p| - 1]) + [p[|p| - 1]];
      assert p[..|p| - 1][|p| - |b|..] + [p[|p| - 1]] == p[|p| - |b|..];
      b
  }

  /** The basename of a file joined onto a directory is the file's own name,
      whatever the directory. */
  lemma BasenameOfJoin(directory: string, name: string)
    requires |name| > 0 && '/' !in name
    ensures Basename(JoinPath(directory, name)) == name
  {
    var p := JoinPath(directory, name);
    BasenameOfSuffix(p, name);
  }

  /** A slash-free suffix that is the whole string or follows a `/` is the
      basename. */
  lemma BasenameOfSuffix(p: string, name: string)
    requires |name| <= |p| && p[|p| - |name|..] == name && '/' !in name
    requires |name| == |p| || p[|p| - |name| - 1] == '/'
    ensures Basename(p) == name
  {
  }
}
