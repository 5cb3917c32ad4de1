# GitBoss repository discovery and repository list, in Dafny

GitBoss is a desktop dashboard for local Git repositories. This project models
the part of it that decides which repositories the dashboard lists. It proves
properties of that model.

- **Scanner** (`core/repository_scanner.py`, module `RepositoryScanner`).
  `scan_for_repositories` walks a directory tree depth-first, up to `max_depth` levels (2 by default).
  It reports every directory holding a `.git` directory and does not descend into it.
  It skips hidden names and anything that is not a directory.
  A missing base directory yields an empty list.
  The file system is a value `Node = File(name) | Dir(name, children)`.
  A directory's `children` list its entries in `iterdir` order.
- **Start-up merge** (`_collect_repositories` in `gitboss/main.py`, and its copy in `main.py`; modules `Startup`, `LegacyStartup`).
  The stored list comes first and the scanned repositories follow.
  Every path is resolved, and each resolved path is kept at its first occurrence.
  Without a base directory, the stored list is returned as it is.
- **Stored list** (module `Preferences`).
  The window writes `preferences["repositories"]` as a list of path strings.
  Start-up reads it back with `Path(p)` for each item.
- **Settings** (`data/config_manager.py`, module `ConfigManager`).
  The model covers the `AppConfig` defaults, `to_dict`, `from_dict`, and what `load_config` does with each state of the settings file.
- **Windows** (`gitboss/ui/main_window.py` as `GitbossWindow`, the older `ui/main_window.py` as `LegacyWindow`).
  Each window is a class holding the configuration and the repository list.
  Its methods are add, remove, rescan, filter and persist.
  A ghost field `persisted` records what `save_config` last wrote.

Helper modules:
- `Paths` models POSIX `pathlib` paths: `Path(s)` is `Parse` and `str(path)` is `Text`. Their round trip is proved.
- `Strings` models `lower`, `strip` and the `in` test on strings.
- `Lists` models order-preserving de-duplication (`dict.fromkeys` and the `seen`/`merged` loop), `list.remove` and `list.index`.
- `Wrappers` holds `Option` and `Result`.

Wherever the Python raises, the model returns a `Failure` naming the cause, except as listed under "## Left out".

The model follows the code where the tests say otherwise.
`test_collect_repositories_without_base_directory` (`tests/test_main_collect_repositories.py:27-33`) expects the resolved stored path.
The code returns the stored list unresolved when no base directory is set.
So `Startup.Collected` and `Startup.StartupAfterPersist` state the unresolved list.
The test passes only where resolving `/tmp/example` leaves it unchanged.

## Model

| member | source | states |
|---|---|---|
| RepositoryScanner.ScanDir | core/repository_scanner.py:24-32 | `_scan` appends to the accumulated list exactly the walk's findings. Nothing is appended past the depth limit. A repository appends itself and stops. Otherwise each non-hidden subdirectory is scanned in order at depth + 1. |
| RepositoryScanner.ScanForRepositories | core/repository_scanner.py:15-35 | The scan of a missing base is empty. An existing directory is walked from its resolved path at depth 0. A plain file as the base fails as `iterdir` does. |
| RepositoryScanner.IsGitRepository | core/repository_scanner.py:11-12 | A node is a repository exactly when it is a directory with a subdirectory named `.git`. |
| RepositoryScanner.Found | core/repository_scanner.py:24-32 | Everything the walk from a directory appends lies below that directory. |
| RepositoryScanner.FoundAmong | core/repository_scanner.py:30-32 | Everything the scans of the children append lies strictly below the directory. |
| RepositoryScanner.BelowParent | core/repository_scanner.py:32 | Whatever lies below `directory / name` lies strictly below `directory`. |
| RepositoryScanner.Scan | core/repository_scanner.py:15-35 | A missing base gives an empty list. The scan fails exactly when the base is a plain file and the depth limit is not negative. Every result lies below the resolved base. |
| RepositoryScanner.FoundIff | core/repository_scanner.py:24-34 | Soundness and completeness. A path is found exactly when it lies below the start and the names leading to it pass only through entered, non-repository directories, within the depth limit, ending at a repository. |
| RepositoryScanner.FoundAmongIff | core/repository_scanner.py:30-32 | Scanning the first k children finds a path exactly when it qualifies through one of those children. |
| RepositoryScanner.BelowChild | core/repository_scanner.py:32 | A path lies below `directory / name` exactly when it lies below `directory` and its next component is `name`. |
| RepositoryScanner.ScanIff | core/repository_scanner.py:15-35 | The same characterisation for a whole scan from the resolved base directory. |
| RepositoryScanner.ScanMissing | core/repository_scanner.py:17-19 | A base directory that does not exist yields an empty list. |
| RepositoryScanner.ScanRepositoryBase | core/repository_scanner.py:27-29 | A base that is itself a repository is the only result. |
| RepositoryScanner.QualifiesDepth | core/repository_scanner.py:25-26 | A qualifying name path never goes beyond the depth limit. |
| RepositoryScanner.FoundWithinDepth | core/repository_scanner.py:25-26 | Every path found lies at most `max_depth` levels below the start. |
| RepositoryScanner.QualifiesNotHidden | core/repository_scanner.py:31 | A qualifying name path has no component starting with `.`. |
| RepositoryScanner.FoundNotHidden | core/repository_scanner.py:31 | No path found has a hidden component below the start. |
| RepositoryScanner.QualifiesEndsAtRepository | core/repository_scanner.py:11-12 | A qualifying name path leads to a directory with a `.git` subdirectory. |
| RepositoryScanner.FoundIsRepository | core/repository_scanner.py:27-28 | Every path found is a directory holding a `.git` directory. |
| RepositoryScanner.QualifiesNotNested | core/repository_scanner.py:27-29 | In a tree with distinct names per directory, no qualifying name path extends another. |
| RepositoryScanner.FoundNotNested | core/repository_scanner.py:27-29 | The scan never reports a repository inside another reported one. |
| RepositoryScanner.FoundNoDuplicates | core/repository_scanner.py:24-34 | In a tree with distinct names per directory, no path is reported twice. |
| RepositoryScanner.FoundAmongNoDuplicates | core/repository_scanner.py:30-32 | The same for the paths found among the first k children. |
| RepositoryScanner.FoundInChildOrder | core/repository_scanner.py:24-34 | Results come in `iterdir` order: in a tree with distinct names per directory, a result found through child a of the start precedes one found through child b only if a is not after b. |
| RepositoryScanner.FoundAmongInChildOrder | core/repository_scanner.py:30-32 | The same for the paths the first k children contribute. |
| RepositoryScanner.ThroughEarlierChild | core/repository_scanner.py:30-32 | A path among the first k children's results was found through one of those k children and no later one. |
| RepositoryScanner.Prune | core/repository_scanner.py:30-31 | Erasing a directory's contents keeps its name and kind. |
| RepositoryScanner.FoundPruned | core/repository_scanner.py:25-26 | The walk never looks inside a directory deeper than `max_depth`. Erasing the contents of every directory at depth `max_depth + 1` changes nothing found. |
| RepositoryScanner.FoundAmongPruned | core/repository_scanner.py:30-32 | The same for the scans of the first k children. |
| Startup.MergeRepositories | gitboss/main.py:46-52 | The `seen`/`merged` loop yields the resolved inputs, each kept at its first occurrence, in input order. |
| Startup.CollectRepositories | gitboss/main.py:41-54 | `_collect_repositories` returns the stored list without a base directory. With one, it returns the merge of stored then scanned paths. It fails when the stored value or the scan raises. |
| Startup.Collected | gitboss/main.py:41-54 | A stored value that cannot be read is an error. Without a base directory the stored list comes back as is. With one, the result has no duplicates. |
| Startup.ResolveAll | gitboss/main.py:48 | Each output is `resolve()` of the input at the same position. |
| Startup.Merge | gitboss/main.py:46-52 | The merged list has no duplicates. |
| Startup.MergeSnoc | gitboss/main.py:48-51 | One more input appends its resolved path exactly when that path is not yet in `seen`. |
| Startup.MergeMember | gitboss/main.py:46-52 | A path is in the merged list exactly when it is the resolution of some input. |
| Startup.MergeStoredFirst | gitboss/main.py:47-52 | Stored entries come first, in their own order. Scanned entries not among them follow, in scan order. |
| Startup.MergeOrder | gitboss/main.py:45-52 | The merged list is ordered by each path's first position among the resolved inputs. |
| Startup.MergeLength | gitboss/main.py:46-52 | The merged list has one entry per distinct resolved input. |
| Startup.MergeFixpoint | gitboss/main.py:46-52 | Distinct inputs that resolve to themselves come out unchanged. |
| Startup.MergeIdempotent | gitboss/main.py:46-52 | With an idempotent `resolve`, merging a merged list changes nothing. |
| Startup.StartupAfterPersist | gitboss/main.py:41-54 | Without a base directory, the next start-up begins with exactly the list the window wrote. |
| Startup.StartupKeepsWrittenFirst | gitboss/main.py:42-52 | With a base directory, a written list of distinct resolved paths is the unchanged front of the next start-up's list. |
| LegacyStartup.CollectRepositories | main.py:31-44 | The copy in `main.py` returns the same result as the packaged one. |
| Preferences.ParseAll | gitboss/main.py:42 | `[Path(p) for p in items]` succeeds exactly when every item is a string. It then parses item by item, and otherwise names a non-string item. |
| Preferences.StoredPaths | gitboss/main.py:42 | An absent key gives the empty list. A stored JSON list is parsed item by item. A stored string is iterated character by character: entry i is `Path(s[i])`. Any other stored value is not iterable. |
| Preferences.Entries | gitboss/ui/main_window.py:480 | Entry i is the JSON string `str(repos[i])`. |
| Preferences.WithRepositories | gitboss/ui/main_window.py:480 | Writing the list sets the `repositories` preference to the JSON list of `str(repo)` for each entry. Every other preference and every other field is unchanged. |
| Preferences.StoredPathsOfWritten | gitboss/ui/main_window.py:480 | Reading back a written list of well-formed paths gives the same list. |
| Preferences.ReloadWritten | gitboss/ui/main_window.py:479-481 | Writing, saving, loading and reading the list gives back the list written. |
| ConfigManager.ToDict | data/config_manager.py:26-35 | `to_dict` has exactly the seven known keys. |
| ConfigManager.FromDictToDict | data/config_manager.py:26-47 | `from_dict(to_dict(c)) == c` for every configuration. |
| ConfigManager.FromDictSucceeds | data/config_manager.py:37-47 | The model's `from_dict` succeeds exactly when every `str` field present holds a string, a present interval converts with `int()`, and present preferences are an object. |
| ConfigManager.FromDictKeepsPresent | data/config_manager.py:37-47 | A successful `from_dict` keeps every present key's value, except the interval, which becomes `int()` of its value. |
| ConfigManager.FromDictDefaultsAbsent | data/config_manager.py:18-47 | A successful `from_dict` gives every absent key its default. |
| ConfigManager.FromDictEmpty | data/config_manager.py:18-47 | `from_dict({})` is `AppConfig()`: "", 15, "dark", "", "", "", {}. |
| ConfigManager.FromDictIgnoresUnknownKeys | data/config_manager.py:37-47 | Keys other than the seven known ones have no effect. |
| ConfigManager.FromDictFallsBackPerKey | data/config_manager.py:38-47 | Dropping one known key resets that field to its default, and only that field. |
| ConfigManager.Truncate | data/config_manager.py:41 | `int(x)` of a float truncates toward zero. |
| ConfigManager.ParseDecimal | data/config_manager.py:41 | A string `int()` accepts ends in a decimal digit. |
| ConfigManager.NaturalText | data/config_manager.py:41 | The decimal text of a natural number is a non-empty run of digits. |
| ConfigManager.NaturalTextValue | data/config_manager.py:41 | The digits of n read back as n. |
| ConfigManager.ParseDecimalText | data/config_manager.py:41 | `int(str(n)) == n` for every integer n, negative ones included. |
| ConfigManager.ParseDecimalRefusesSignsAlone | data/config_manager.py:41 | `int()` refuses "", "+" and "-". |
| ConfigManager.IntValueOfPaddedText | data/config_manager.py:41 | An interval stored as the string " 10 " reads as 10. |
| ConfigManager.IntValue | data/config_manager.py:41 | `int()` keeps an integer and raises on null, list and object. |
| ConfigManager.LoadConfig | data/config_manager.py:54-71 | A missing file gives the defaults. An unreadable or non-JSON file gives the defaults and is moved to `config.corrupted`. A decoded mapping gives what `from_dict` gives, success or error, with no backup. A non-UTF-8 file fails as undecodable, and a decoded non-mapping fails as not an object. |
| ConfigManager.LoadSaved | data/config_manager.py:54-77 | Loading the file `save_config(c)` wrote gives `c` back, with no backup. |
| ConfigManager.Saved | data/config_manager.py:74-77 | The file `save_config` writes decodes to an object with exactly the seven known keys. |
| Paths.ParseText | gitboss/ui/main_window.py:398 | `Path(str(p)) == p` for every well-formed path. |
| Paths.Parse | gitboss/main.py:42 | `Path(s)` is rooted exactly when `s` starts with '/'. A plain name is a one-component relative path. "" and "." are the empty relative path. |
| Paths.Text | gitboss/ui/main_window.py:480 | `str(p)` of a well-formed path is never empty and starts with '/' exactly when the path is rooted. |
| Paths.Join | gitboss/ui/main_window.py:480 | The joined text starts with the first component. |
| Paths.ParseWellFormed | gitboss/main.py:42 | `Path(s)` is well formed for every string. |
| Paths.ComponentsValid | gitboss/main.py:42 | Parsing yields no empty and no `.` components. |
| Paths.ComponentsOfJoin | gitboss/ui/main_window.py:480 | Splitting the joined text of valid components gives those components back. |
| Paths.FirstSlash | gitboss/main.py:42 | The first `/` of a string, or its length when there is none. |
| Strings.LowerChar | gitboss/ui/main_window.py:457-460 | Lower-casing leaves no upper-case letter, and changes a character exactly when it is upper case. |
| Strings.Lower | gitboss/ui/main_window.py:457-460 | `lower()` lower-cases every character and keeps the length. |
| Strings.LowerIdempotent | gitboss/ui/main_window.py:457 | Lower-casing twice is lower-casing once. |
| Strings.StripLeft | gitboss/ui/main_window.py:457 | Removes exactly the leading whitespace. |
| Strings.StripRight | gitboss/ui/main_window.py:457 | Removes exactly the trailing whitespace. |
| Strings.Strip | gitboss/ui/main_window.py:457 | The result neither starts nor ends with whitespace. |
| Strings.StripSlice | gitboss/ui/main_window.py:457 | The result is a slice of the input, and everything dropped on either side is whitespace. |
| Strings.StripBounds | gitboss/ui/main_window.py:457 | Gives the bounds i <= j of that slice: `strip` keeps `s[i..j]` and everything before i and from j on is whitespace. |
| Strings.StripRightSlice | gitboss/ui/main_window.py:457 | Stripping the right end of a suffix `s[i..]` keeps a slice `s[i..j]` and drops only whitespace. |
| Strings.StripBlank | gitboss/ui/main_window.py:457 | Stripping a whitespace-only string gives "". |
| Strings.ContainsIff | gitboss/ui/main_window.py:460 | `needle in hay` exactly when the needle occurs at some offset. |
| Strings.ContainsEmpty | gitboss/ui/main_window.py:460 | The empty string occurs in every string. |
| Strings.ContainsTransitive | gitboss/ui/main_window.py:460 | Occurrence is transitive. |
| Lists.NoDuplicatesAppend | core/repository_scanner.py:30-32 | Two disjoint duplicate-free lists concatenate to a duplicate-free list. |
| Lists.ElementsSnoc | gitboss/main.py:49-51 | `seen` grows by exactly the path appended. |
| Lists.IndexOf | gitboss/ui/main_window.py:384 | `list.index` gives the first position holding the value. |
| Lists.IndexOfDistinct | gitboss/ui/main_window.py:384 | In a list without duplicates, the index of the entry at i is i. |
| Lists.IndexOfPrefix | gitboss/main.py:48-51 | Appending after a value does not change its index. |
| Lists.IndexOfLast | gitboss/ui/main_window.py:381-384 | A value appended to a list not holding it is found at the old length. |
| Lists.Dedup | gitboss/ui/main_window.py:410 | `dict.fromkeys` keeps no duplicates and only input values. |
| Lists.DedupMember | gitboss/ui/main_window.py:410 | A value survives de-duplication exactly when it was in the input. |
| Lists.WithoutMember | gitboss/ui/main_window.py:410 | A value is in `b` without `a` exactly when it is in `b` and not in `a`. |
| Lists.DedupOrder | gitboss/ui/main_window.py:410 | De-duplication keeps the order of first occurrences. |
| Lists.DedupSnoc | gitboss/ui/main_window.py:410 | One more input is appended exactly when it is new. |
| Lists.WithoutSnoc | gitboss/ui/main_window.py:410 | Removing the values of `a` from `b + [x]` keeps `x` exactly when it is not in `a`. |
| Lists.DedupAppendStep | gitboss/ui/main_window.py:410 | The inductive step of `DedupAppend`. |
| Lists.DedupAppend | gitboss/ui/main_window.py:410 | De-duplicating `a + b` gives de-duplicated `a`, then de-duplicated `b` without the values of `a`. |
| Lists.WithoutCovered | gitboss/ui/main_window.py:410 | `b` without `a` is empty when every value of `b` is in `a`. |
| Lists.DedupAbsorbs | gitboss/ui/main_window.py:410 | Appending values already present changes nothing. |
| Lists.DedupOfDistinct | gitboss/ui/main_window.py:410 | A list without duplicates is its own de-duplication. |
| Lists.DedupIdempotent | gitboss/ui/main_window.py:410 | De-duplicating twice is de-duplicating once. |
| Lists.DistinctCardinality | gitboss/main.py:46-52 | A list without duplicates has as many elements as distinct values. |
| Lists.DedupLength | gitboss/main.py:46-52 | De-duplication leaves one entry per distinct value. |
| Lists.RemoveFirst | gitboss/ui/main_window.py:399-400 | `list.remove` of a present value removes exactly one entry. The window calls it only after checking the value is present; on an absent value the model leaves the list unchanged where Python would raise `ValueError`. |
| Lists.RemoveFirstMultiset | gitboss/ui/main_window.py:400 | `list.remove` takes exactly one occurrence of the value out of the multiset of entries. |
| Lists.RemoveFirstAt | gitboss/ui/main_window.py:400 | `list.remove` deletes the entry at the value's first index. |
| Lists.RemoveAppended | gitboss/ui/main_window.py:381-400 | Removing a value just appended to a list not holding it restores the list. |
| Lists.RemoveFromDistinct | gitboss/ui/main_window.py:400 | In a list without duplicates, removal leaves no duplicates and no copy of the value. |
| GitbossWindow.MainWindow.constructor | gitboss/ui/main_window.py:68-71 | The window holds the configuration and list it is given. The configuration is the one start-up saved. |
| GitbossWindow.MainWindow.PersistRepositories | gitboss/ui/main_window.py:479-481 | The list is written into the preferences, and that configuration is saved. The list itself is unchanged. |
| GitbossWindow.MainWindow.Add | gitboss/ui/main_window.py:376-387 | A cancelled dialog or a listed path changes and saves nothing. A new path is appended, its new last row is selected, and the list is saved. |
| GitbossWindow.MainWindow.Remove | gitboss/ui/main_window.py:393-403 | With no selection nothing changes. Otherwise the first entry equal to the selected row's parsed text is removed and the list is saved. When no entry equals it, nothing changes. |
| GitbossWindow.MainWindow.Rescan | gitboss/ui/main_window.py:405-414 | Without a base directory nothing changes. A failing scan changes nothing and is reported. Otherwise the list becomes the current list followed by the scan, de-duplicated, and is saved. |
| GitbossWindow.MainWindow.FilterRepositories | gitboss/ui/main_window.py:456-460 | Each row is hidden exactly when the lower-cased, stripped query does not occur in its lower-cased text. |
| GitbossWindow.MainWindow.SetHiddenFlags | gitboss/ui/main_window.py:458-460 | The loop sets one hidden flag per row, in row order, from the query test. |
| GitbossWindow.HiddenBy | gitboss/ui/main_window.py:457-460 | A row is hidden when the normalised query does not occur in its lower-cased text. A query that strips to nothing hides nothing. |
| GitbossWindow.AddThenRemove | gitboss/ui/main_window.py:376-403 | Adding a new path selects its row. Removing that row gives back the list as it was. |
| GitbossWindow.RemoveSelectedRow | gitboss/ui/main_window.py:393-403 | In a duplicate-free list of well-formed paths, removing the selected row deletes exactly that row and keeps the list duplicate-free. |
| GitbossWindow.RescanAppendsNew | gitboss/ui/main_window.py:409-411 | A rescan keeps a duplicate-free list unchanged in front. It appends the new scanned paths in scan order, each once. |
| GitbossWindow.RescanIdempotent | gitboss/ui/main_window.py:409-411 | Rescanning with the same scan result changes nothing more. |
| GitbossWindow.BlankQueryHidesNothing | gitboss/ui/main_window.py:456-460 | An empty or whitespace-only query hides no row. |
| GitbossWindow.FilterIgnoresQueryCase | gitboss/ui/main_window.py:457 | The filter ignores the case of the query. |
| GitbossWindow.ShownIffOccurs | gitboss/ui/main_window.py:460 | A row is shown exactly when the normalised query occurs at some offset of its lower-cased text. |
| GitbossWindow.ShownForSubQuery | gitboss/ui/main_window.py:456-460 | A row shown by a query is shown by every query contained in it. |
| LegacyWindow.MainWindow.constructor | ui/main_window.py:60-63 | The window holds the configuration and list it is given. The configuration is the one start-up saved. |
| LegacyWindow.MainWindow.PersistRepositories | ui/main_window.py:179-181 | The list is written into the preferences and saved. The list itself is unchanged. |
| LegacyWindow.MainWindow.Add | ui/main_window.py:164-174 | A cancelled dialog or a listed path changes and saves nothing. A new path is appended, its row is selected, and the list is saved. |

## Left out

- Qt widgets, message boxes, the activity log and the logger are not modelled. The list widget is taken to show `repos` in order, labelled `str(repo)`.
- The dialog's answer, the selected row and the filter text are parameters.
- Networking and GitHub access (`github_manager`) are not part of this model.
- Per-repository Git status (`git_manager`, `_refresh_current_repo`) is not part of this model.
- The start-up wizard and `main()` are not part of this model.
- File I/O is not modelled. The settings file is a `FileState` value. `save_config` is a ghost snapshot in the window classes, and `Saved` is the document it leaves behind.
- The rename to `config.corrupted` is a flag, so a failing rename is not distinguished.
- `ensure_config_directory` and the settings path are not modelled.
- `Path.resolve()` is a parameter `resolve: Path -> Path`. Symbolic links and the current directory are not modelled.
- Symbolic links in the scanned tree are not modelled.
- Permission errors raised by `iterdir` or `is_dir` below the base are not modelled.
- The order `iterdir` lists entries in is the given order of `children`.
- `Strings.Lower` covers only ASCII and Latin-1 letters. Python's full Unicode case mapping, including mappings that change the length, is not modelled.
- `ConfigManager.ParseDecimal` accepts an optional sign and ASCII digits. `int()` also accepts underscores between digits and non-ASCII digits.
- `ConfigManager.IntValue` ignores JSON `Infinity` and `NaN`. There `int()` raises.
- `Lists.RemoveFirst`: on a value not in the list it returns the list unchanged, where Python's `list.remove` raises `ValueError`; the window only removes a value it has checked is present.
- `Paths.Parse` does not model POSIX's special case of a path starting with exactly two slashes.
- `ConfigManager.FromDict`: a known key holding a JSON value of another type is an error in the model. Python would store that value in the dataclass unchecked.
- `Preferences.StoredPaths`: a JSON object stored under `repositories` would be iterated by key in Python. A map keeps no order, so the model reports it as not iterable.
- The window and start-up share one `AppConfig` object. The model passes it by value, so that aliasing is not captured.
