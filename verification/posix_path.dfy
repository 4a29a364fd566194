/**
 The part of POSIX path handling that the config watcher relies on:
 `os.path.basename`, which returns the text after the last `/`
 (the whole path when it has no `/`, and the empty string when it ends in `/`).
 */
module PosixPath {

  /** The POSIX path separator. */
  const Sep: char := '/'

  /** `name` is the final component of `path`: a suffix of `path` that holds
      no separator and is either the whole path or directly preceded by one. */
  ghost predicate IsLastComponent(path: string, name: string) {
    && Sep !in name
    && |name| <= |path|
    && path[|path| - |name|..] == name
    && (|name| == |path| || path[|path| - |name| - 1] == Sep)
  }

  /** `os.path.basename` on POSIX: everything after the last separator. */
  function Basename(path: string): (name: string)
    ensures IsLastComponent(path, name)
  {
    if |path| == 0 || path[|path| - 1] == Sep then ""
    else
      var init := path[..|path| - 1];
      var last := path[|path| - 1];
      var rest := Basename(init);
      assert path == init + [last];
      assert path[|path| - |rest| - 1..] == init[|init| - |rest|..] + [last];
      rest + [last]
  }

  /** A path has only one last component. */
  lemma LastComponentUnique(path: string, a: string, b: string)
    requires IsLastComponent(path, a)
    requires IsLastComponent(path, b)
    ensures a == b
  {
  }

  /** The characterization of `Basename` in both directions: a name is the
      last component of a path exactly when `Basename` returns it. */
  lemma BasenameIff(path: string, name: string)
    ensures IsLastComponent(path, name) <==> name == Basename(path)
  {
    if IsLastComponent(path, name) {
      LastComponentUnique(path, name, Basename(path));
    }
  }

  /** Joining a directory and a separator-free name, then taking the
      basename, gives the name back. */
  lemma BasenameOfChild(dir: string, name: string)
    requires Sep !in name
    ensures Basename(dir + [Sep] + name) == name
  {
    var path := dir + [Sep] + name;
    assert path[|path| - |name|..] == name;
    assert path[|path| - |name| - 1] == Sep;
    BasenameIff(path, name);
  }

  /** A path that ends in a separator has an empty basename. */
  lemma BasenameOfTrailingSeparator(path: string)
    requires |path| > 0 && path[|path| - 1] == Sep
    ensures Basename(path) == ""
  {
    BasenameIff(path, "");
  }
}
