# kuling: finding and moving files, modelled in Dafny

This project models `kuling/find.py`, the core of the `kuling` library. The
file holds three operations.

- `find_matching_paths(path_pattern, raise_error_if_no_match=False)` splits a
  path pattern into parts and finds the first part that holds `*`, `?` or `[`.
  - A pattern with no such part is a literal path. The result is that path
    when it is a regular file, and empty otherwise.
  - Otherwise the literal parts before the first wildcard part form the base
    directory (`.` when there are none). The base must exist and must be a
    directory. The remaining parts are globbed below it, and only regular
    files are kept.
  - An empty result raises "No files found" only when the caller asks for it.
- `move_file(source, destination, delete_original=False)` checks that the
  source exists. A destination that is a directory becomes
  `destination/source.name`. The parent directories are created, the file
  is copied, and the source is unlinked only when asked.
- `delete_file(path)` unlinks an existing path and says whether it existed.

How the model represents these:

- A path is the sequence of its parts, as `pathlib.Path.parts` gives them.
  `Path(".")` has no parts, so the current directory is the empty sequence.
- A filesystem is a finite map from paths to entries. An entry is a regular
  file with its bytes, a directory, or a special file.
- The operations that only read the filesystem (`Find`, `Glob`) are
  functions over such a map.
- `move_file` and `delete_file` change the filesystem. They are methods of a
  `FileSystem` class whose one field is the map; each method states the
  whole new map and keeps the map a tree.
- The standard library's `Path.glob` is not part of this model's source. A
  matcher written in Dafny stands in for it (module `Glob`). It follows the
  pattern notation of POSIX.1-2017 (XCU sections 2.13.1 to 2.13.3) as Python's
  `fnmatch` implements it, plus `**` for zero or more directory levels:
  - `*` matches any run of characters within one part;
  - `?` matches exactly one character;
  - `[set]` matches one listed character, and `[!set]` one character that is
    not listed. A `]` right after the opening `[` or `[!` is a member, `a-z`
    is a range, and a `[` without a closing `]` is an ordinary character;
  - no pattern crosses a `/`, because parts are matched one by one;
  - the root part `/` of an absolute path is matched only by the segment
    `/` itself, and `**` never descends through it, so a glob below `.`
    lists only entries below `.`.
- Result lists are modelled as sets, so the order is left open.
- Errors are modelled as values of a `Result` type.

Modules: `Wrappers` (the `Result`/`Option` types), `Paths` (paths,
entries, the tree), `Glob` (the matcher and its laws), `GlobExamples`
(scenarios from the test-suite), `Find` (`find_matching_paths`) and
`FileOps` (`move_file`, `delete_file`).

Where the code and its tests disagree, the model follows the code.

- The tests expect `move_file` to remove the source by default
  (tests/move_test.py:15-20). The code defaults to `delete_original=False`
  (kuling/find.py:52, kuling/find.py:66). `FileOps.FileSystem.MoveFile` keeps
  the source unless `deleteOriginal` is set.
- The tests expect `delete_file` to return `None` and to raise on a missing
  path or a directory (tests/delete_test.py:42-80). The code returns a
  boolean and returns `False` for a missing path (kuling/find.py:72-79). For
  a directory, `unlink` fails at the operating-system level. The model
  returns `Err(IsADirectory(path))` there and leaves the filesystem
  unchanged.
- `shutil.copy2` also copies into a destination that is a directory. So when
  `destination/source.name` is itself an existing directory, the bytes land
  one level deeper, while `move_file` still returns the directory path.
  `FileOps.CopyAllowed` and `FileOps.CopyThenUnlink` model this.

## Model

| member | source | states |
|---|---|---|
| Find.WildcardPositions | kuling/find.py:14-16 | the positions returned are exactly the indices of parts holding a character of `WILDCARD_CHARS`, in increasing order |
| Find.Decompose | kuling/find.py:26-32 | no wildcard part gives `NoWildcard`; otherwise base ++ suffix is the original parts, every base part is literal, and the suffix starts with a wildcard part |
| Find.DecompositionUnique | kuling/find.py:26-40 | any split into literal base parts and a suffix starting with a wildcard part is the one the code computes |
| Find.WildcardFirstPart | kuling/find.py:28-32 | when the first part holds a wildcard, the base is `.` and the suffix is the whole pattern |
| Find.FindMatchingPaths | kuling/find.py:6-46 | every returned path is a regular file; when the flag is set the result is never empty; a "no files found" error arises only when the flag is set |
| Find.FindLiteralPath | kuling/find.py:18-24 | without wildcard parts the result is the path itself if it is a regular file, empty otherwise (so at most one path, nothing for a directory), and "No files found" only when the flag is set |
| Find.FindBaseChecks | kuling/find.py:34-41 | a missing base raises "does not exist", an existing non-directory base raises "is not a directory", in that order and whatever the flag; a directory base gives a result or "No files found matching pattern"; a result holds exactly the regular files below the base whose relative path matches the suffix |
| Find.FindFromCurrentDir | kuling/find.py:28-38 | in a well-formed tree a pattern whose first part is a wildcard part never fails the base checks |
| Find.LiteralPrefixSplit | kuling/find.py:40-41 | globbing the suffix below a literal base matches the same paths as the whole pattern from `.` |
| Find.LiteralPatternMatchesOnlyItself | kuling/find.py:18-19 | a pattern with no wildcard part matches exactly the path it spells |
| Find.FindReturnsFilesMatchingPattern | kuling/find.py:41 | a successful result, on either branch, equals the set of regular files the whole pattern matches; directories never appear |
| Find.RelativePatternRelativeResults | kuling/find.py:28-41 | a pattern without the root part `/` never returns a path containing it: globbing below `.` lists only entries below `.` |
| Find.RootFileNotFound | kuling/find.py:31-41 | when the only regular file is `/a.txt`, every relative pattern starting with a wildcard part returns nothing |
| Find.CurrentDirGlobSkipsRoot | kuling/find.py:31-41 | with `/a.txt` present beside `.`, both `*/a.txt` and `**/*.txt` return nothing |
| Find.FindRaisePolicy | kuling/find.py:21-24 | the flag fails the call exactly when the quiet call returns nothing, and otherwise leaves the outcome unchanged |
| Glob.LiteralPrefix | kuling/find.py:41 | characters other than `*`, `?`, `[` match only themselves, one for one |
| Glob.LiteralPartMatchesOnlyItself | kuling/find.py:41 | a part without `*`, `?` or `[`, as a glob segment or a path part, matches exactly itself |
| Glob.AnyRunMatches | kuling/find.py:41 | `*` followed by the rest matches a name iff the rest matches some suffix of the name |
| Glob.StarSegment | kuling/find.py:41 | a segment `*rest` matches iff `rest` matches what is left after skipping some number of characters |
| Glob.StarMatchesEverything | kuling/find.py:41 | the segment `*` matches every name, the empty one included |
| Glob.QuestionSegment | kuling/find.py:41 | a segment `?rest` matches iff the name has a first character and `rest` matches the remainder |
| Glob.PlainItems | kuling/find.py:41 | a bracket body without `-` admits exactly the characters it lists |
| Glob.SetSegment | kuling/find.py:41 | `[set]rest` matches iff the first character is in the set and `rest` matches the remainder |
| Glob.RangeItem | kuling/find.py:41 | `lo-hi` at the head of a bracket body admits exactly the characters from `lo` to `hi`, and the rest of the body keeps its own members |
| Glob.RangeSegment | kuling/find.py:41 | `[lo-hi]rest` matches iff the first character lies between `lo` and `hi` and `rest` matches the remainder |
| Glob.LeadingBracketMember | kuling/find.py:41 | a `]` right after `[` or `[!` is a member: `[]x]` admits `]` and `x`, `[!]x]` every other character |
| Glob.NegatedSetSegment | kuling/find.py:41 | `[!set]rest` matches iff the first character is not in the set and `rest` matches the remainder |
| Glob.DoubleStarLevels | kuling/find.py:41 | a `**` part followed by the rest matches a path iff the rest matches the path with zero or more leading levels dropped, none of them the root `/` |
| Glob.RelativeMatchesStayRelative | kuling/find.py:41 | a pattern without the root part `/` matches only paths without it |
| Glob.OneSegmentPerPart | kuling/find.py:41 | without `**`, a pattern matches a path iff both have the same number of parts and each part matches its segment (the root part `/` only by the segment `/`), so `*` never crosses `/` |
| GlobExamples.QuestionMarkIsOneCharacter | tests/find_test.py:217-228 | `file?.txt` matches `file1.txt` but not `file12.txt` or `file123.txt` |
| GlobExamples.CharacterSets | tests/find_test.py:245-293 | `test[12].py` matches `test1.py` and `test2.py` but not `test3.py`; `test[!1].py` matches `test2.py` and `test3.py` but not `test1.py` |
| GlobExamples.QuestionMarkThenStar | tests/find_test.py:552-563 | `v?_*.txt` matches `v1_data.txt` but not `v10_data.txt` |
| GlobExamples.RecursiveWildcard | tests/find_test.py:343-358 | `**/*.txt` finds `root.txt` at the top and `level1/level2/level3/file3.txt` deep down, and does not match the directory `level1` |
| GlobExamples.WildcardAtEachLevel | tests/find_test.py:360-376 | `*/*/*.txt` matches `dir1/sub1/file1.txt` but not the two-level `dir1/sub1` |
| FileOps.DestinationRule | kuling/find.py:60-61 | a directory destination resolves to `destination/source.name`; any other destination is used unchanged |
| FileOps.MakeDirs | kuling/find.py:63 | `mkdir(parents=True, exist_ok=True)` keeps every entry and adds only directories on the way to the given path |
| FileOps.MakeDirsKeepsTree | kuling/find.py:63 | when nothing on the way is a non-directory, creating the directories keeps the tree a tree and makes the path a directory |
| FileOps.MkdirKeepsTarget | kuling/find.py:60-64 | creating the parent directories does not change whether the destination is a directory, nor where the copy lands |
| FileOps.CopyThenUnlinkState | kuling/find.py:64-67 | after the copy and optional unlink the target holds the source's bytes, the source exists iff it was not to be deleted, and no other entry changes |
| FileOps.WriteKeepsTree | kuling/find.py:64 | writing a non-directory entry where no directory stands, inside an existing directory, keeps the tree a tree |
| FileOps.RemoveKeepsTree | kuling/find.py:67 | unlinking an entry that is not a directory keeps the tree a tree |
| FileOps.CopyThenUnlinkKeepsTree | kuling/find.py:64-67 | copying a file into an existing directory and unlinking a file keep the tree a tree |
| FileOps.MovedState | kuling/find.py:57-69 | against the filesystem before the call: the source was a regular file, the file the copy lands on holds its bytes, the source survives iff `delete_original` is false, and every other entry is untouched |
| FileOps.MovedNewEntries | kuling/find.py:63-64 | a move creates only the file the copy lands on and directories on the way to the destination |
| FileOps.FileSystem.MoveFile | kuling/find.py:49-69 | missing source: "File not found" and no change; blocked parent: mkdir error and no change; refused copy: only the new directories; otherwise returns the resolved destination, the copy holds the source's bytes, the source survives iff `delete_original` is false, all else unchanged; the tree stays well-formed |
| FileOps.FileSystem.MoveFileAsWritten | kuling/find.py:1-69 | the code as written: after the source check and the mkdir, the call to `shutil.copy2` fails with NameError, so every call returns an error and the source is kept |
| FileOps.FileSystem.DeleteFile | kuling/find.py:72-79 | returns true iff the path existed and is not a directory, false iff it was missing, an error iff it is a directory; on true exactly that path is removed, otherwise nothing changes |

## Left out

- Parsing the pattern string into parts with `Path(...)`: separators, Windows drives, the root part and the `ValueError` re-wrap (kuling/find.py:9-12). The model takes the parts as given. An absolute path is a sequence whose first part is `/` (`Paths.Root`); nothing in the model stops `/` from appearing elsewhere, so a relative pattern is stated as one without that part.
- Turning the suffix back into a string (kuling/find.py:40). The model matches the suffix parts directly, which is the same as re-splitting that string.
- FileOps.FileSystem.MoveFile, FileOps.FileSystem.DeleteFile, Find.FindMatchingPaths: the filesystem map is keyed by paths as they are spelled, for every path argument, patterns and the `source`, `destination` and `path` of `move_file` and `delete_file` alike. A relative path and the absolute path of the same file are distinct keys, because the working directory's place under `/` is not modelled. `..` and `.` parts are kept as ordinary parts, so `d/../a.txt` is a key of its own and `mkdir` would create `d/..` as a directory. `CopyAllowed`'s `target != source` stands for `shutil.copy2`'s SameFileError only when both paths are spelled the same. So moving `a.txt` to `d/../a.txt` completes in the model where the code raises SameFileError, and `delete_file("d/../a.txt")` returns false in the model where the code unlinks `a.txt`.
- Symlinks, and symlink cycles under `**`. Permission errors during traversal. Changes made by other processes between the checks and the use.
- Glob enumeration order: results are sets.
- Hidden-file rules and case-insensitive file systems: the matcher treats dot files like any other name and compares characters exactly, as `pathlib` does on POSIX systems.
- Glob.MatchPath: a `**` inside a longer part acts like `*`, and a trailing `**` matches the base and every entry below it (the base, a directory, is then dropped by the file filter). Other Python versions differ on these two edge cases.
- `shutil.copy2` metadata (times, permissions) and the details of special files: only the bytes are copied, and a special file is neither copied nor overwritten.
- The exact exception classes and messages. Each error is a constructor named after its message.
- FileOps.FileSystem: every method requires the map to be a tree (`Valid`), and the constructor demands one. The real filesystem always is one.
- `kuling/examples.py` is a demonstration script with no logic of its own.
- `copy_file` is imported by tests/copy_test.py but is not part of this model: it is absent from the source.

## Findings

| source | as written | input that shows it | evidently intended | confidence | as-written member | corrected member |
|---|---|---|---|---|---|---|
| kuling/find.py:64 | `move_file` calls `shutil.copy2`, but the module imports only `pathlib.Path` (kuling/find.py:1), so the name `shutil` is undefined | any existing source file, for example `move_file("a.txt", "b.txt")`: the parent directory is created, then NameError is raised and nothing is copied | copy the file, then unlink the source when asked | high, not executed | FileOps.FileSystem.MoveFileAsWritten | FileOps.FileSystem.MoveFile |
