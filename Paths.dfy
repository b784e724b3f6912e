/** POSIX path handling: the last component of a path, and joining two paths. */
module Paths {

  /**
   * The text after the last '/' of `path` (all of it when there is none):
   * a separator-free suffix of `path` that is either all of `path` or
   * directly preceded by a separator.
   */
  function Basename(path: string): (name: string)
    ensures |name| <= |path| && name == path[|path| - |name|..]
    ensures '/' !in name
    ensures |name| < |path| ==> path[|path| - |name| - 1] == '/'
    decreases |path|
  {
    if path == [] || path[|path| - 1] == '/' then []
    else Basename(path[..|path| - 1]) + [path[|path| - 1]]
  }

  /**
   * `dir` and `name` joined with one '/' between them; an absolute `name`
   * replaces `dir`, and no separator is added after an empty `dir` or one
   * that already ends in '/'.
   */
  function JoinPath(dir: string, name: string): (path: string)
    ensures |name| <= |path| && path[|path| - |name|..] == name
    ensures (name == [] || name[0] != '/') ==> |dir| <= |path| && path[..|dir|] == dir
  {
    if |name| > 0 && name[0] == '/' then name
    else if dir == [] || dir[|dir| - 1] == '/' then dir + name
    else dir + "/" + name
  }

  lemma {:induction false} BasenameAfterSeparator(prefix: string, name: string)
    requires prefix == [] || prefix[|prefix| - 1] == '/'
    requires '/' !in name
    ensures Basename(prefix + name) == name
    decreases |name|
  {
    if name != [] {
      var init := name[..|name| - 1];
      assert (prefix + name)[..|prefix + name| - 1] == prefix + init;
      BasenameAfterSeparator(prefix, init);
      assert name == init + [name[|name| - 1]];
    }
  }

  /** The last component of a joined path is the separator-free name joined on. */
  lemma BasenameOfJoin(dir: string, name: string)
    requires '/' !in name
    ensures Basename(JoinPath(dir, name)) == name
  {
    if dir == [] || dir[|dir| - 1] == '/' {
      BasenameAfterSeparator(dir, name);
    } else {
      assert dir + "/" + name == (dir + "/") + name;
      BasenameAfterSeparator(dir + "/", name);
    }
  }

  /**
   * Joining a relative name adds the same number of characters to `dir`
   * whatever the name, so names of different lengths give different paths.
   */
  lemma JoinPathLength(dir: string, name: string)
    requires '/' !in name
    ensures |JoinPath(dir, name)| == |JoinPath(dir, [])| + |name|
  {
  }
}
