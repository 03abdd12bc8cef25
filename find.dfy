/**
 * `find_matching_paths` (kuling/find.py): split a path pattern at its first
 * wildcard part, check that the literal prefix is an existing directory,
 * glob the rest below it, keep the regular files, and raise on an empty
 * result only when the caller asks for it.
 */
module Find {
  import opened Wrappers
  import opened Paths
  import opened Glob

  /** `WILDCARD_CHARS`: the characters that make a path part a pattern. */
  const WildcardChars: set<char> := {'*', '?', '['}

  /** A part counts as a wildcard part if any of its characters is in WildcardChars. */
  predicate IsWildcardPart(part: string) {
    exists i | 0 <= i < |part| :: part[i] in WildcardChars
  }

  /** The indices, from `from` on and in increasing order, of the wildcard parts. */
  function WildcardPositions(parts: seq<string>, from: nat): (r: seq<nat>)
    requires from <= |parts|
    ensures forall k :: k in r <==> from <= k < |parts| && IsWildcardPart(parts[k])
    ensures forall j, l | 0 <= j < l < |r| :: r[j] < r[l]
    decreases |parts| - from
  {
    if from == |parts| then []
    else
      var rest := WildcardPositions(parts, from + 1);
      assert forall k | 0 <= k < |rest| :: rest[k] in rest;
      if IsWildcardPart(parts[from]) then [from] + rest else rest
  }

  /** How a pattern splits: no wildcard part at all, or a literal base and the rest. */
  datatype Decomposition = NoWildcard | Split(base: Path, suffix: seq<string>)

  /**
   * The base is every part before the first wildcard part (the current
   * directory when the first part is one); the suffix is the rest, starting
   * with that wildcard part.
   */
  function Decompose(parts: seq<string>): (d: Decomposition)
    ensures d.NoWildcard? <==> forall i | 0 <= i < |parts| :: !IsWildcardPart(parts[i])
    ensures d.Split? ==> d.base + d.suffix == parts
    ensures d.Split? ==> forall i | 0 <= i < |d.base| :: !IsWildcardPart(d.base[i])
    ensures d.Split? ==> |d.suffix| > 0 && IsWildcardPart(d.suffix[0])
  {
    var positions := WildcardPositions(parts, 0);
    if |positions| == 0 then
      assert forall i | 0 <= i < |parts| :: IsWildcardPart(parts[i]) ==> i in positions;
      NoWildcard
    else
      var first := positions[0];
      assert first in positions;
      var base := if first > 0 then parts[..first] else CurrentDir;
      assert forall j | 0 <= j < |positions| :: first <= positions[j];
      assert base == parts[..first];
      Split(base, parts[first..])
  }

  /** The exceptions `find_matching_paths` raises. */
  datatype FindError =
    | NoFilesFound(pattern: Path)                  // FileNotFoundError for a literal path
    | BaseDirectoryDoesNotExist(base: Path)        // NotADirectoryError
    | BasePathIsNotADirectory(base: Path)          // NotADirectoryError
    | NoFilesFoundMatchingPattern(pattern: Path)   // FileNotFoundError for a wildcard pattern

  /** The two "nothing found" errors, as opposed to the two base-directory errors. */
  predicate IsNoMatchError(e: FindError) {
    e.NoFilesFound? || e.NoFilesFoundMatchingPattern?
  }

  /**
   * `find_matching_paths(path_pattern, raise_error_if_no_match=False)` on the
   * filesystem `fs`. The result list is modelled as a set: its order is left open.
   */
  function FindMatchingPaths(fs: Tree, pathPattern: seq<string>, raiseErrorIfNoMatch: bool := false)
    : (r: Result<set<Path>, FindError>)
    ensures r.Ok? ==> forall p | p in r.value :: IsFile(fs, p)
    ensures r.Ok? && raiseErrorIfNoMatch ==> r.value != {}
    ensures r.Err? && IsNoMatchError(r.error) ==> raiseErrorIfNoMatch
  {
    match Decompose(pathPattern)
    case NoWildcard =>
      var matches := if IsFile(fs, pathPattern) then {pathPattern} else {};
      if raiseErrorIfNoMatch && matches == {} then Err(NoFilesFound(pathPattern))
      else Ok(matches)
    case Split(base, suffix) =>
      if !Exists(fs, base) then Err(BaseDirectoryDoesNotExist(base))
      else if !IsDir(fs, base) then Err(BasePathIsNotADirectory(base))
      else
        var matches := set p | p in GlobEntries(fs, base, suffix) && IsFile(fs, p);
        if raiseErrorIfNoMatch && matches == {} then Err(NoFilesFoundMatchingPattern(pathPattern))
        else Ok(matches)
  }

  /**
   * Reference definition: the regular files that the whole pattern matches
   * from the current directory, with no split into base and suffix.
   */
  function FilesMatching(fs: Tree, pattern: seq<string>): set<Path> {
    set p | p in fs && fs[p].File? && MatchPath(pattern, p)
  }

  // ---------------------------------------------------------------------
  // The decomposition
  // ---------------------------------------------------------------------

  /**
   * The split is unique: any base made of literal parts followed by a suffix
   * that starts with a wildcard part is the one Decompose finds.
   */
  lemma DecompositionUnique(parts: seq<string>, base: Path, suffix: seq<string>)
    requires base + suffix == parts
    requires forall i | 0 <= i < |base| :: !IsWildcardPart(base[i])
    requires |suffix| > 0 && IsWildcardPart(suffix[0])
    ensures Decompose(parts) == Split(base, suffix)
  {
    var d := Decompose(parts);
    assert parts[|base|] == suffix[0];
    assert d.Split?;
    assert forall i | 0 <= i < |base| :: parts[i] == base[i];
    assert forall i | 0 <= i < |d.base| :: parts[i] == d.base[i];
    assert parts[|d.base|] == d.suffix[0];
    assert |d.base| == |base|;
    assert d.base == parts[..|base|] == base;
    assert d.suffix == parts[|base|..] == suffix;
  }

  /** When the first part is a wildcard part, the base is `.` and the suffix is the whole pattern. */
  lemma WildcardFirstPart(parts: seq<string>)
    requires |parts| > 0 && IsWildcardPart(parts[0])
    ensures Decompose(parts) == Split(CurrentDir, parts)
  {
    DecompositionUnique(parts, CurrentDir, parts);
  }

  // ---------------------------------------------------------------------
  // Literal parts and the matcher
  // ---------------------------------------------------------------------

  /**
   * Matching `base + suffix` from the current directory, when every base
   * part is literal, is the same as matching `suffix` below `base`: splitting
   * the pattern at its first wildcard part loses and adds nothing.
   */
  lemma {:induction false} LiteralPrefixSplit(base: Path, suffix: seq<string>, p: Path)
    requires forall i | 0 <= i < |base| :: !IsWildcardPart(base[i])
    ensures MatchPath(base + suffix, p) <==> IsPrefix(base, p) && MatchPath(suffix, p[|base|..])
    decreases |base|
  {
    if base == [] {
      assert base + suffix == suffix;
      assert p[0..] == p;
    } else {
      var pattern := base + suffix;
      assert pattern[0] == base[0] && pattern[1..] == base[1..] + suffix;
      assert base[0] != DoubleStar by {
        assert IsWildcardPart(DoubleStar) by { assert DoubleStar[0] == '*'; }
      }
      assert !IsWildcardPart(base[0]);
      assert forall i | 0 <= i < |base[0]| :: base[0][i] !in WildcardChars;
      if p != [] {
        LiteralPartMatchesOnlyItself(base[0], p[0]);
        LiteralPrefixSplit(base[1..], suffix, p[1..]);
        if |base| <= |p| {
          assert p[1..][|base| - 1..] == p[|base|..];
          assert p[..|base|] == [p[0]] + p[1..][..|base| - 1];
          assert base == [base[0]] + base[1..];
        }
      }
    }
  }

  /** A pattern with no wildcard part at all matches exactly the path it spells. */
  lemma LiteralPatternMatchesOnlyItself(parts: seq<string>, p: Path)
    requires forall i | 0 <= i < |parts| :: !IsWildcardPart(parts[i])
    ensures MatchPath(parts, p) <==> p == parts
  {
    LiteralPrefixSplit(parts, [], p);
    assert parts + [] == parts;
    if IsPrefix(parts, p) {
      assert MatchPath([], p[|parts|..]) <==> |p| == |parts|;
      assert |p| == |parts| ==> p == p[..|parts|];
    }
  }

  // ---------------------------------------------------------------------
  // What find_matching_paths returns
  // ---------------------------------------------------------------------

  /**
   * Whatever the branch, a successful result is exactly the set of regular
   * files that the whole pattern matches: the base/suffix split and the
   * literal shortcut are optimisations that do not change the answer.
   * Directories are never returned, even when the pattern matches them.
   */
  lemma FindReturnsFilesMatchingPattern(fs: Tree, parts: seq<string>, raiseErrorIfNoMatch: bool)
    ensures var r := FindMatchingPaths(fs, parts, raiseErrorIfNoMatch);
      r.Ok? ==> r.value == FilesMatching(fs, parts)
  {
    var r := FindMatchingPaths(fs, parts, raiseErrorIfNoMatch);
    if r.Ok? {
      match Decompose(parts)
      case NoWildcard =>
        forall p ensures p in FilesMatching(fs, parts) <==> p in r.value {
          LiteralPatternMatchesOnlyItself(parts, p);
        }
      case Split(base, suffix) =>
        forall p ensures p in FilesMatching(fs, parts) <==> p in r.value {
          LiteralPrefixSplit(base, suffix, p);
        }
    }
  }

  /**
   * A pattern without wildcard parts is a literal path: the result is that
   * path if it is a regular file and nothing otherwise (so at most one path,
   * and nothing for a directory); "No files found" is raised only on request.
   */
  lemma FindLiteralPath(fs: Tree, parts: seq<string>, raiseErrorIfNoMatch: bool)
    requires forall i | 0 <= i < |parts| :: !IsWildcardPart(parts[i])
    ensures var r := FindMatchingPaths(fs, parts, raiseErrorIfNoMatch);
      && (IsFile(fs, parts) ==> r == Ok({parts}))
      && (!IsFile(fs, parts) ==> r == if raiseErrorIfNoMatch then Err(NoFilesFound(parts)) else Ok({}))
      && (r.Ok? ==> |r.value| <= 1)
  {
  }

  /**
   * With a wildcard part, the base directory is checked before any matching
   * and whatever the flag says: a missing base is reported first, then a
   * base that exists but is not a directory. A result holds exactly the
   * regular files below the base whose path relative to it matches the suffix.
   */
  lemma FindBaseChecks(fs: Tree, parts: seq<string>, base: Path, suffix: seq<string>, raiseErrorIfNoMatch: bool)
    requires base + suffix == parts
    requires forall i | 0 <= i < |base| :: !IsWildcardPart(base[i])
    requires |suffix| > 0 && IsWildcardPart(suffix[0])
    ensures var r := FindMatchingPaths(fs, parts, raiseErrorIfNoMatch);
      && (!Exists(fs, base) ==> r == Err(BaseDirectoryDoesNotExist(base)))
      && (Exists(fs, base) && !IsDir(fs, base) ==> r == Err(BasePathIsNotADirectory(base)))
      && (IsDir(fs, base) ==> r.Ok? || r == Err(NoFilesFoundMatchingPattern(parts)))
      && (r.Ok? ==> forall p :: p in r.value <==> IsFile(fs, p) && IsPrefix(base, p) && MatchPath(suffix, p[|base|..]))
  {
    DecompositionUnique(parts, base, suffix);
  }

  /**
   * The flag only turns an empty result into "No files found": it fails the
   * call exactly when the quiet call returns nothing, and otherwise changes
   * nothing (a non-empty result, or a base-directory error, is the same).
   */
  lemma FindRaisePolicy(fs: Tree, parts: seq<string>)
    ensures var quiet := FindMatchingPaths(fs, parts, false);
      var loud := FindMatchingPaths(fs, parts, true);
      && (loud.Err? && IsNoMatchError(loud.error) <==> quiet == Ok({}))
      && (quiet != Ok({}) ==> loud == quiet)
      && (quiet.Ok? ==> quiet.value == FilesMatching(fs, parts))
  {
    FindReturnsFilesMatchingPattern(fs, parts, false);
    match Decompose(parts)
    case NoWildcard =>
    case Split(base, suffix) =>
      if IsDir(fs, base) {
        var matches := set p | p in GlobEntries(fs, base, suffix) && IsFile(fs, p);
        assert FindMatchingPaths(fs, parts, false) == Ok(matches);
      }
  }

  /** In a well-formed tree the current directory exists, so a pattern starting with a wildcard part never fails its base checks. */
  lemma FindFromCurrentDir(fs: Tree, parts: seq<string>, raiseErrorIfNoMatch: bool)
    requires WellFormed(fs)
    requires |parts| > 0 && IsWildcardPart(parts[0])
    ensures var r := FindMatchingPaths(fs, parts, raiseErrorIfNoMatch);
      r.Ok? || r == Err(NoFilesFoundMatchingPattern(parts))
  {
    WildcardFirstPart(parts);
  }

  /**
   * A relative pattern (one without the root part `/`) never lists an
   * absolute path: globbing below `.` stays below `.`.
   */
  lemma RelativePatternRelativeResults(fs: Tree, parts: seq<string>, raiseErrorIfNoMatch: bool)
    requires Root !in parts
    ensures var r := FindMatchingPaths(fs, parts, raiseErrorIfNoMatch);
      r.Ok? ==> forall p | p in r.value :: Root !in p
  {
    var r := FindMatchingPaths(fs, parts, raiseErrorIfNoMatch);
    FindReturnsFilesMatchingPattern(fs, parts, raiseErrorIfNoMatch);
    if r.Ok? {
      forall p | p in r.value ensures Root !in p {
        RelativeMatchesStayRelative(parts, p);
      }
    }
  }

  /** With `/a.txt` as the only regular file, a relative wildcard pattern finds nothing. */
  lemma RootFileNotFound(parts: seq<string>)
    requires |parts| > 0 && IsWildcardPart(parts[0]) && Root !in parts
    ensures FindMatchingPaths(map[[] := Dir, [Root] := Dir, [Root, "a.txt"] := File([])], parts) == Ok({})
  {
    var fs: Tree := map[[] := Dir, [Root] := Dir, [Root, "a.txt"] := File([])];
    WildcardFirstPart(parts);
    assert IsDir(fs, CurrentDir);
    RelativePatternRelativeResults(fs, parts, false);
    var r := FindMatchingPaths(fs, parts);
    forall p | p in r.value ensures p == [Root, "a.txt"] {
      assert IsFile(fs, p);
    }
    assert [Root, "a.txt"] !in r.value by {
      assert [Root, "a.txt"][0] == Root;
    }
    assert r.value == {};
  }

  // A concrete tree with an absolute entry `/a.txt` beside the current
  // directory: neither `*/a.txt` nor `**/*.txt` lists it.
  lemma CurrentDirGlobSkipsRoot()
    ensures var fs: Tree := map[[] := Dir, [Root] := Dir, [Root, "a.txt"] := File([])];
      && FindMatchingPaths(fs, ["*", "a.txt"]) == Ok({})
      && FindMatchingPaths(fs, [DoubleStar, "*.txt"]) == Ok({})
  {
    var star: seq<string> := ["*", "a.txt"];
    assert IsWildcardPart(star[0]) by { assert star[0][0] == '*'; }
    RootFileNotFound(star);
    var recursive: seq<string> := [DoubleStar, "*.txt"];
    assert IsWildcardPart(recursive[0]) by { assert recursive[0][0] == '*'; }
    RootFileNotFound(recursive);
  }
}
