/**
 * `move_file` and `delete_file` (kuling/find.py) as methods of a filesystem
 * object whose one field is the map from paths to entries. `mkdir`,
 * `shutil.copy2` and `unlink` become updates of that map.
 */
module FileOps {
  import opened Wrappers
  import opened Paths

  /** The exceptions a move raises, in the order the code can reach them. */
  datatype MoveError =
    | FileNotFound(source: Path)                     // the source does not exist
    | ParentNotADirectory(dir: Path)                 // mkdir(parents=True, exist_ok=True) fails
    | ShutilNotDefined                               // NameError: `shutil` is never imported
    | CopyRefused(source: Path, destination: Path)   // shutil.copy2 fails

  /** The exception `unlink` raises on a directory (IsADirectoryError on Linux). */
  datatype DeleteError = IsADirectory(path: Path)

  /**
   * Where the file goes: into a destination that is an existing directory,
   * under the source's own name; anywhere else, to the destination itself.
   */
  function ResolveDestination(fs: Tree, source: Path, destination: Path): Path {
    if IsDir(fs, destination) then Join(destination, Name(source)) else destination
  }

  /** A directory destination receives the source's name; any other destination is used as given. */
  lemma DestinationRule(fs: Tree, source: Path, destination: Path)
    requires source != [] && Name(source) != ""
    ensures var dest := ResolveDestination(fs, source, destination);
      && (IsDir(fs, destination) ==> Parent(dest) == destination && Name(dest) == Name(source))
      && (!IsDir(fs, destination) ==> dest == destination)
  {
  }

  /**
   * `dir.mkdir(parents=True, exist_ok=True)` fails when `dir` or one of its
   * ancestors (below the current directory) exists and is not a directory.
   */
  predicate MkdirBlocked(fs: Tree, dir: Path)
    decreases |dir|
  {
    dir != [] && ((dir in fs && !fs[dir].Dir?) || MkdirBlocked(fs, Parent(dir)))
  }

  /**
   * What a successful `dir.mkdir(parents=True, exist_ok=True)` leaves: every
   * missing ancestor of `dir`, and `dir` itself, becomes a directory and
   * nothing else changes.
   */
  function MakeDirs(fs: Tree, dir: Path): (r: Tree)
    ensures fs.Keys <= r.Keys && forall p | p in fs :: r[p] == fs[p]
    ensures forall p | p in r && p !in fs :: r[p] == Dir && IsPrefix(p, dir)
    decreases |dir|
  {
    if dir == [] then fs
    else
      var up := MakeDirs(fs, Parent(dir));
      PrefixOfParent(dir);
      if dir in up then up else up[dir := Dir]
  }

  /** An ancestor of `Parent(dir)` is an ancestor of `dir`. */
  lemma PrefixOfParent(dir: Path)
    requires dir != []
    ensures forall p | IsPrefix(p, Parent(dir)) :: IsPrefix(p, dir)
  {
    forall p | IsPrefix(p, Parent(dir)) ensures IsPrefix(p, dir) {
      assert dir[..|p|] == Parent(dir)[..|p|];
    }
  }

  /** Creating the missing directories of an unblocked path keeps the tree a tree and makes the path a directory. */
  lemma {:induction false} MakeDirsKeepsTree(fs: Tree, dir: Path)
    requires WellFormed(fs) && !MkdirBlocked(fs, dir)
    ensures WellFormed(MakeDirs(fs, dir)) && IsDir(MakeDirs(fs, dir), dir)
    decreases |dir|
  {
    if dir != [] {
      var up := MakeDirs(fs, Parent(dir));
      MakeDirsKeepsTree(fs, Parent(dir));
      if dir in up {
        assert dir in fs;
      } else {
        var r := up[dir := Dir];
        assert MakeDirs(fs, dir) == r;
        forall p | p in r && p != CurrentDir ensures IsDir(r, Parent(p)) {
          if p != dir {
            assert IsDir(up, Parent(p));
          }
        }
      }
    }
  }

  /**
   * Whether `shutil.copy2(source, dest)` succeeds. Like `move_file` itself,
   * `copy2` sends the copy into `dest` when `dest` is a directory; the copy
   * then needs a regular source and a target that differs from it and is
   * absent or a regular file.
   */
  predicate CopyAllowed(fs: Tree, source: Path, dest: Path) {
    var target := ResolveDestination(fs, source, dest);
    IsFile(fs, source) && target != source && (target !in fs || fs[target].File?)
  }

  /** The filesystem after `shutil.copy2(source, dest)` and, when asked, `source.unlink()`. */
  function CopyThenUnlink(fs: Tree, source: Path, dest: Path, deleteOriginal: bool): Tree
    requires IsFile(fs, source)
  {
    var bytes := fs[source];
    var copied := fs[ResolveDestination(fs, source, dest) := bytes];
    if deleteOriginal then copied - {source} else copied
  }

  /**
   * `mkdir` on the parent of `dest` creates only ancestors of `dest`, so it
   * does not change whether `dest` is a directory, nor where `copy2` writes.
   */
  lemma MkdirKeepsTarget(fs: Tree, made: Tree, source: Path, dest: Path)
    requires dest != []
    requires forall p | p in fs :: p in made && made[p] == fs[p]
    requires forall p | p in made && p !in fs :: IsPrefix(p, Parent(dest))
    ensures IsDir(made, dest) <==> IsDir(fs, dest)
    ensures ResolveDestination(made, source, dest) == ResolveDestination(fs, source, dest)
  {
    assert !IsPrefix(dest, Parent(dest));
  }

  /**
   * What a completed move leaves behind, stated against the filesystem
   * before the call (`made` is that filesystem after `mkdir`, which only adds
   * directories on the way to `dest`): the file the copy lands on holds the
   * source's bytes, the source is gone exactly when `deleteOriginal` is set,
   * and every other entry is untouched.
   */
  lemma MovedState(fs: Tree, made: Tree, source: Path, dest: Path, deleteOriginal: bool)
    requires dest != []
    requires forall p | p in fs :: p in made && made[p] == fs[p]
    requires forall p | p in made && p !in fs :: made[p] == Dir && IsPrefix(p, Parent(dest))
    requires CopyAllowed(made, source, dest)
    ensures var after := CopyThenUnlink(made, source, dest, deleteOriginal);
      var landed := ResolveDestination(fs, source, dest);
      && IsFile(fs, source)
      && landed in after && after[landed] == fs[source]
      && (source in after <==> !deleteOriginal)
      && (forall p | p in fs && p != source && p != landed :: p in after && after[p] == fs[p])
  {
    assert source in fs;
    MkdirKeepsTarget(fs, made, source, dest);
    CopyThenUnlinkState(made, source, dest, deleteOriginal);
  }

  /**
   * The only entries a completed move creates are the file the copy lands
   * on and the directories on the way to the destination.
   */
  lemma MovedNewEntries(fs: Tree, source: Path, dest: Path, deleteOriginal: bool)
    requires dest != []
    requires CopyAllowed(MakeDirs(fs, Parent(dest)), source, dest)
    ensures var after := CopyThenUnlink(MakeDirs(fs, Parent(dest)), source, dest, deleteOriginal);
      var landed := ResolveDestination(fs, source, dest);
      forall p | p in after && p !in fs :: p == landed || (after[p] == Dir && IsPrefix(p, Parent(dest)))
  {
    var made := MakeDirs(fs, Parent(dest));
    MkdirKeepsTarget(fs, made, source, dest);
    CopyThenUnlinkState(made, source, dest, deleteOriginal);
    var after := CopyThenUnlink(made, source, dest, deleteOriginal);
    var landed := ResolveDestination(fs, source, dest);
    forall p | p in after && p !in fs ensures p == landed || (after[p] == Dir && IsPrefix(p, Parent(dest))) {
      if p != landed {
        assert p in made && after[p] == made[p];
        assert made[p] == Dir && IsPrefix(p, Parent(dest));
      }
    }
  }

  /** The copy puts the source's entry where `copy2` writes, the unlink removes `source` when asked, and nothing else changes. */
  lemma CopyThenUnlinkState(fs: Tree, source: Path, dest: Path, deleteOriginal: bool)
    requires CopyAllowed(fs, source, dest)
    ensures var after := CopyThenUnlink(fs, source, dest, deleteOriginal);
      var target := ResolveDestination(fs, source, dest);
      && target in after && after[target] == fs[source]
      && (source in after <==> !deleteOriginal)
      && after.Keys == (if deleteOriginal then fs.Keys + {target} - {source} else fs.Keys + {target})
      && (forall p | p in after && p != target :: after[p] == fs[p])
  {
  }

  /** Writing a non-directory entry where there was no directory, inside an existing directory, keeps the tree a tree. */
  lemma WriteKeepsTree(fs: Tree, target: Path, e: Entry)
    requires WellFormed(fs) && !e.Dir?
    requires target != [] && IsDir(fs, Parent(target)) && !IsDir(fs, target)
    ensures WellFormed(fs[target := e])
  {
    var written := fs[target := e];
    forall p | p in written && p != CurrentDir ensures IsDir(written, Parent(p)) {
      if p != target {
        assert IsDir(fs, Parent(p));
      }
    }
  }

  /** Removing an entry that is not a directory keeps the tree a tree. */
  lemma RemoveKeepsTree(fs: Tree, p: Path)
    requires WellFormed(fs) && p in fs && !fs[p].Dir?
    ensures WellFormed(fs - {p})
  {
    var after := fs - {p};
    forall q | q in after && q != CurrentDir ensures IsDir(after, Parent(q)) {
      assert IsDir(fs, Parent(q));
    }
  }

  /** Copying a file into an existing directory, and unlinking a file, keep the tree a tree. */
  lemma CopyThenUnlinkKeepsTree(fs: Tree, source: Path, dest: Path, deleteOriginal: bool)
    requires WellFormed(fs) && CopyAllowed(fs, source, dest)
    requires dest != [] && IsDir(fs, Parent(dest))
    ensures WellFormed(CopyThenUnlink(fs, source, dest, deleteOriginal))
  {
    var target := ResolveDestination(fs, source, dest);
    assert target != [] by {
      assert IsDir(fs, CurrentDir);
    }
    assert IsDir(fs, Parent(target)) by {
      if IsDir(fs, dest) {
        assert Name(source) != "";
      }
    }
    var copied := fs[target := fs[source]];
    WriteKeepsTree(fs, target, fs[source]);
    if deleteOriginal {
      RemoveKeepsTree(copied, source);
    }
  }

  class FileSystem {
    var entries: Tree

    ghost predicate Valid()
      reads this
    {
      WellFormed(entries)
    }

    constructor (initial: Tree)
      requires WellFormed(initial)
      ensures Valid() && entries == initial
    {
      entries := initial;
    }

    /**
     * `move_file` as it would run had `shutil` been imported: check the
     * source, resolve the destination, create its parent directories, copy,
     * and remove the source only when asked to.
     */
    method MoveFile(source: Path, destination: Path, deleteOriginal: bool := false)
      returns (r: Result<Path, MoveError>)
      requires Valid()
      modifies this
      ensures Valid()
      ensures var fs := old(entries);
        var dest := ResolveDestination(fs, source, destination);
        var made := MakeDirs(fs, Parent(dest));
        && (!Exists(fs, source) ==> r == Err(FileNotFound(source)) && entries == fs)
        && (Exists(fs, source) && MkdirBlocked(fs, Parent(dest)) ==>
              r == Err(ParentNotADirectory(Parent(dest))) && entries == fs)
        && (Exists(fs, source) && !MkdirBlocked(fs, Parent(dest)) && !CopyAllowed(made, source, dest) ==>
              r == Err(CopyRefused(source, dest)) && entries == made)
        && (Exists(fs, source) && !MkdirBlocked(fs, Parent(dest)) && CopyAllowed(made, source, dest) ==>
              r == Ok(dest) && entries == CopyThenUnlink(made, source, dest, deleteOriginal))
      ensures r.Ok? ==> var landed := ResolveDestination(old(entries), source, r.value);
        && IsFile(old(entries), source)
        && landed in entries && entries[landed] == old(entries)[source]
        && (Exists(entries, source) <==> !deleteOriginal)
        && forall p | p in old(entries) && p != source && p != landed :: p in entries && entries[p] == old(entries)[p]
    {
      if !Exists(entries, source) {
        return Err(FileNotFound(source));
      }
      var dest := ResolveDestination(entries, source, destination);
      if MkdirBlocked(entries, Parent(dest)) {
        return Err(ParentNotADirectory(Parent(dest)));
      }
      ghost var fs := entries;
      MakeDirsKeepsTree(entries, Parent(dest));
      entries := MakeDirs(entries, Parent(dest));
      if !CopyAllowed(entries, source, dest) {
        return Err(CopyRefused(source, dest));
      }
      assert dest != [] by {
        assert IsDir(entries, CurrentDir);
      }
      MovedState(fs, entries, source, dest, deleteOriginal);
      CopyThenUnlinkKeepsTree(entries, source, dest, deleteOriginal);
      var target := ResolveDestination(entries, source, dest);
      entries := entries[target := entries[source]];
      if deleteOriginal {
        entries := entries - {source};
      }
      r := Ok(dest);
    }

    /**
     * `move_file` as written: the source check, the destination rule and the
     * `mkdir` run, and then the call to `shutil.copy2` raises NameError because
     * the module never imports `shutil`, so no move ever completes.
     */
    method MoveFileAsWritten(source: Path, destination: Path, deleteOriginal: bool := false)
      returns (r: Result<Path, MoveError>)
      requires Valid()
      modifies this
      ensures Valid()
      ensures var fs := old(entries);
        var dest := ResolveDestination(fs, source, destination);
        && (!Exists(fs, source) ==> r == Err(FileNotFound(source)) && entries == fs)
        && (Exists(fs, source) && MkdirBlocked(fs, Parent(dest)) ==>
              r == Err(ParentNotADirectory(Parent(dest))) && entries == fs)
        && (Exists(fs, source) && !MkdirBlocked(fs, Parent(dest)) ==>
              r == Err(ShutilNotDefined) && entries == MakeDirs(fs, Parent(dest)))
      ensures r.Err?
      ensures Exists(old(entries), source) ==> Exists(entries, source) && entries[source] == old(entries)[source]
    {
      if !Exists(entries, source) {
        return Err(FileNotFound(source));
      }
      var dest := ResolveDestination(entries, source, destination);
      if MkdirBlocked(entries, Parent(dest)) {
        return Err(ParentNotADirectory(Parent(dest)));
      }
      MakeDirsKeepsTree(entries, Parent(dest));
      entries := MakeDirs(entries, Parent(dest));
      r := Err(ShutilNotDefined);
    }

    /**
     * `delete_file`: unlink the path and answer whether it existed. A missing
     * path is not an error; a directory cannot be unlinked.
     */
    method DeleteFile(path: Path) returns (r: Result<bool, DeleteError>)
      requires Valid()
      modifies this
      ensures Valid()
      ensures r == Ok(true) <==> Exists(old(entries), path) && !IsDir(old(entries), path)
      ensures r == Ok(false) <==> !Exists(old(entries), path)
      ensures r.Err? <==> IsDir(old(entries), path)
      ensures r.Err? ==> r.error == IsADirectory(path)
      ensures r == Ok(true) ==> !Exists(entries, path)
      ensures entries == if r == Ok(true) then old(entries) - {path} else old(entries)
    {
      if Exists(entries, path) {
        if IsDir(entries, path) {
          return Err(IsADirectory(path));
        }
        RemoveKeepsTree(entries, path);
        entries := entries - {path};
        return Ok(true);
      }
      return Ok(false);
    }
  }
}
