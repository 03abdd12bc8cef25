/**
 * An abstract, in-memory picture of the part of a filesystem the library touches.
 *
 * A path is the sequence of its parts, as `pathlib.Path.parts` gives them. The
 * current directory `Path(".")` has no parts at all, so it is the empty path.
 * A filesystem is a finite map from paths to entries; a path that is not a key
 * does not exist.
 */
module Paths {

  type Path = seq<string>

  /** What `stat` would report about an existing path. */
  datatype Entry =
    | File(data: seq<bv8>)   // a regular file and its bytes
    | Dir                    // a directory
    | Special                // anything else: a named pipe, a socket, a device

  type Tree = map<Path, Entry>

  /** `Path(".")`: its `parts` tuple is empty. */
  const CurrentDir: Path := []

  /**
   * The first part of an absolute path, as in `Path("/a").parts == ("/", "a")`.
   * It never occurs anywhere else, and never in a relative path.
   */
  const Root: string := "/"

  /** `Path.exists()` */
  predicate Exists(fs: Tree, p: Path) {
    p in fs
  }

  /** `Path.is_file()` */
  predicate IsFile(fs: Tree, p: Path) {
    p in fs && fs[p].File?
  }

  /** `Path.is_dir()` */
  predicate IsDir(fs: Tree, p: Path) {
    p in fs && fs[p].Dir?
  }

  /** `Path.parent`; the parent of the current directory is itself. */
  function Parent(p: Path): (q: Path)
    ensures p != [] ==> q + [p[|p| - 1]] == p
  {
    if p == [] then [] else p[..|p| - 1]
  }

  /** `Path.name`: the last part, or "" for the current directory. */
  function Name(p: Path): string {
    if p == [] then "" else p[|p| - 1]
  }

  /** `dir / name`; joining the empty name leaves the path as it is. */
  function Join(dir: Path, name: string): (p: Path)
    ensures name != "" ==> Parent(p) == dir && Name(p) == name
    ensures name == "" ==> p == dir
  {
    if name == "" then dir else dir + [name]
  }

  /** `a` is `b` or one of `b`'s ancestors. */
  predicate IsPrefix(a: Path, b: Path) {
    |a| <= |b| && b[..|a|] == a
  }

  /**
   * The filesystem is a tree: the current directory exists and is a
   * directory, and the parent of every other entry is a directory.
   */
  ghost predicate WellFormed(fs: Tree) {
    && IsDir(fs, CurrentDir)
    && forall p | p in fs && p != CurrentDir :: IsDir(fs, Parent(p))
  }
}
