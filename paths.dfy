/**
 * The two path operations the scan uses, with POSIX rules: `os.path.join`
 * of a walked directory and one of its file names, and `os.path.basename`
 * of the joined path, which names the row.
 */
module Paths {

  const Sep: char := '/'

  /** `os.path.join(dir, name)`: an absolute name replaces the directory;
      otherwise the name follows the directory and a separator is put between
      them only when the directory is non-empty and does not already end with one. */
  function Join(dir: string, name: string): (p: string)
    ensures |name| > 0 && name[0] == Sep ==> p == name
    ensures |name| == 0 || name[0] != Sep ==> p == DirPrefix(dir) + name
  {
    if |name| > 0 && name[0] == Sep then name else DirPrefix(dir) + name
  }

  /** The directory as it stands in front of a joined relative name. */
  function DirPrefix(dir: string): (prefix: string)
    ensures EndsInSep(prefix) && dir <= prefix
    ensures |prefix| <= |dir| + 1
    ensures EndsInSep(dir) ==> prefix == dir
    ensures !EndsInSep(dir) ==> prefix == dir + [Sep]
  {
    if EndsInSep(dir) then dir else dir + [Sep]
  }

  /** True of the empty string and of a string whose last character is the separator. */
  predicate EndsInSep(s: string)
  {
    s == [] || s[|s| - 1] == Sep
  }

  /** `os.path.basename(p)`: what follows the last separator (all of `p` if it has none). */
  function Basename(p: string): (name: string)
  {
    if p == [] || p[|p| - 1] == Sep then []
    else Basename(p[..|p| - 1]) + [p[|p| - 1]]
  }

  /** The basename is a suffix of the path. */
  lemma {:induction false} BasenameIsSuffix(p: string)
    ensures |Basename(p)| <= |p| && Basename(p) == p[|p| - |Basename(p)|..]
  {
    if p != [] && p[|p| - 1] != Sep {
      var init := p[..|p| - 1];
      BasenameIsSuffix(init);
      assert p[|p| - |Basename(p)|..] == init[|init| - |Basename(init)|..] + [p[|p| - 1]];
    }
  }

  /** The basename holds no separator. */
  lemma {:induction false} BasenameHasNoSep(p: string)
    ensures Sep !in Basename(p)
  {
    if p != [] && p[|p| - 1] != Sep {
      BasenameHasNoSep(p[..|p| - 1]);
    }
  }

  /** The basename is preceded by a separator unless it is the whole path: it is the
      part after the last separator. */
  lemma {:induction false} BasenameAfterLastSep(p: string)
    ensures |Basename(p)| < |p| ==> p[|p| - |Basename(p)| - 1] == Sep
  {
    BasenameIsSuffix(p);
    if p != [] && p[|p| - 1] != Sep {
      var init := p[..|p| - 1];
      BasenameAfterLastSep(init);
      BasenameIsSuffix(init);
      if |Basename(p)| < |p| {
        assert p[|p| - |Basename(p)| - 1] == init[|init| - |Basename(init)| - 1];
      }
    }
  }

  lemma {:induction false} BasenameAfterSep(prefix: string, name: string)
    requires EndsInSep(prefix) && Sep !in name
    ensures Basename(prefix + name) == name
  {
    if name != [] {
      var last := |name| - 1;
      assert (prefix + name)[..|prefix + name| - 1] == prefix + name[..last];
      BasenameAfterSep(prefix, name[..last]);
      assert name[..last] + [name[last]] == name;
    } else {
      assert prefix + name == prefix;
    }
  }

  /** The basename of a joined path is the file name that was joined. */
  lemma BasenameOfJoin(dir: string, name: string)
    requires Sep !in name
    ensures Basename(Join(dir, name)) == name
  {
    assert |name| == 0 || name[0] != Sep;
    BasenameAfterSep(DirPrefix(dir), name);
  }
}
