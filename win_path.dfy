/** Windows path pieces as `std::path` and `os.path` see them: either
    a backslash or `/` separates components, and the file name is what follows the
    last separator. */
module WinPath {

  predicate IsSeparator(c: char) {
    c == '\\' || c == '/'
  }

  /** Where the file name starts: just after the last separator. */
  function NameStart(p: string): (k: nat)
    ensures k <= |p|
    ensures forall i :: k <= i < |p| ==> !IsSeparator(p[i])
    ensures k == 0 || IsSeparator(p[k - 1])
    decreases |p|
  {
    if |p| == 0 then 0
    else if IsSeparator(p[|p| - 1]) then |p|
    else NameStart(p[..|p| - 1])
  }

  function FileName(p: string): string {
    p[NameStart(p)..]
  }

  /** A directory part ending in a separator, followed by a name without
      one: the file name starts right after the directory part. */
  lemma {:induction false} SameNameStart(dir: string, name: string)
    requires dir == [] || IsSeparator(dir[|dir| - 1])
    requires forall i :: 0 <= i < |name| ==> !IsSeparator(name[i])
    ensures NameStart(dir + name) == |dir|
    decreases |name|
  {
    if |name| == 0 {
      assert dir + name == dir;
    } else {
      SameNameStart(dir, name[..|name| - 1]);
      assert (dir + name)[..|dir + name| - 1] == dir + name[..|name| - 1];
    }
  }
}
