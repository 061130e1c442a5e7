# game-space: the cleanup guard, the byte formatter and the size report

game-space is a small Windows console tool. It has a C# program and a partial Rust port.
Run without arguments, the C# program lists every game folder under a fixed set of
library roots on drive `D:` (Battle.net, EA, Epic, GOG, Steam, Ubisoft, Xbox). It prints
them largest first, in three aligned columns: name, platform and size. Run with
`--cleanup <name>`, both programs act as a cleanup guard. The guard looks for an orphaned
game folder of that name under the roots. It removes the folder only when the match is
unique and holds no executable.

This Dafny project models:

- **Paths and the disk** (`paths.dfy`, `filesystem.dfy`).
  - A path is a sequence of components, such as `["D:", "Ubisoft", "Foo"]`.
  - The disk is the class `FileSystem.Drive`. It holds the sets of existing directory paths and file paths.
  - `Drive.Delete` is the recursive delete. It removes the directory and its whole subtree, and nothing else.
- **What both guards share** (`guard.dfy`).
  - The `--cleanup` flag.
  - The target name: the other arguments joined by single spaces.
  - The walk over the roots, in order. A root with no match is skipped. A root with several matches is reported and skipped. The first root that yields a decision ends the walk.
- **The root tables** (`gameroots.dfy`).
  - The C# dictionary has eight paths with their platform labels.
  - The Rust list has seven paths.
- **The C# guard** (`cleanup_cs.dfy`).
  - A match is a directory at any depth below the root whose name is the target.
  - A match is unsafe when an `.exe` file lies anywhere below it.
- **The Rust guard and its `main`** (`cleanup_rust.dfy`).
  - A match is an immediate child directory of the root whose full path string contains the target.
  - A match is unsafe when one of its own files has the extension `exe`.
  - A root that exists as a file makes `read_dir(..).expect(..)` panic.
  - `main` passes the program path (argv[0]) to the guard together with the user's arguments.
- **`ByteFormatter.Format`** (`bytes.dfy`).
  - It divides by 1024 at most five times and picks the unit from `B`, `KB`, `MB`, `GB` and `TB`.
  - Sizes of 1024^5 bytes or more index past the unit table.
- **The size report** (`report.dfy`).
  - The three column widths are the maxima of `Main` (lines 50-52).
  - The games are ordered by size, largest first; the sort is stable.
  - Names and platforms are padded on the left, sizes on the right.
  - Each game's platform is looked up from its folder's parent directory.
  - Each exception the loop can throw is modelled as an error outcome.

The guards and the report are imperative Dafny. Each is a method with loops over the roots
or the games, and each is proved equal to a specification function: `CsDecide`,
`RustDecide` or `ReportOf`. Lemmas then state what those functions promise, for every
input: which root decides, when a removal happens, why a removal is safe, when the report
completes, and how each line is laid out.

After a root with several matches, the code prints a message and goes on to the next root
(`Program.cs` line 145, `main.rs` line 58). `Guard.Walk` does the same, and
`CsCleanup.CsFirstUniqueRootDecides` lets a later root with a single match decide.

## Model

| member | source | states |
|---|---|---|
| Paths.Parent | src/Program.cs:58 | `Directory.GetParent` is null exactly for a path of at most one component; otherwise the path is a child of the result |
| Paths.ParentOfChild | src/Program.cs:58 | the parent of a child of a root is that root |
| FileSystem.Drive.Delete | src/Program.cs:157 | the recursive delete removes the directory and every directory and file below it, and nothing else; the drive stays well formed |
| Guard.WithoutFlag | src/Program.cs:130 | the arguments without the flag: the flag never remains, and every other argument keeps its number of occurrences |
| Guard.WithoutFlagAppend | gamespace/src/main.rs:32-36 | dropping the flag is a filter: it distributes over concatenation |
| Guard.TargetName | src/Program.cs:130 | the target name is the arguments without the flag joined by single spaces; `Guard.TargetNameTokens` and `RustCleanup.ProgramPathLeadsTarget` state what it determines |
| Guard.Walk | src/Program.cs:131-159 | the walk over the roots; `Guard.WalkStopsAtFirstDecision`, `Guard.WalkWithoutDecision` and `Guard.AmbiguousRootsMembers` characterise it |
| Guard.TargetNameTokens | src/Program.cs:130 | when no argument contains a space, splitting the target name at spaces gives back the arguments without the flag |
| Guard.WalkStopsAtFirstDecision | src/Program.cs:131-159 | the walk ends with the first decided root's decision and reports exactly the ambiguous roots before it |
| Guard.WalkWithoutDecision | src/Program.cs:131-159 | with no decided root the outcome is "not found", and every ambiguous root is reported |
| Guard.AmbiguousRootsMembers | src/Program.cs:143-145 | a root is reported exactly when it was walked and had several matches |
| GameRoots.GameRootDirectories | src/Program.cs:99-113 | the C# table has eight entries, each a folder strictly below `D:` with a non-empty platform label |
| GameRoots.RustGameRootDirectories | gamespace/src/main.rs:15-25 | the Rust list has seven paths, each a folder strictly below `D:` |
| GameRoots.RootPaths | src/Program.cs:131 | the keys walked are the entries' paths in insertion order, and a path is in the list exactly when it is a key of the dictionary `RootMap` builds |
| GameRoots.RootPathsCountKeys | src/Program.cs:131 | with distinct paths the dictionary has exactly as many keys as the list has paths, so each key is walked once |
| GameRoots.RootMap | src/Program.cs:99-113 | the dictionary's keys are exactly the paths of its entries |
| GameRoots.RootMapLookup | src/Program.cs:101-111 | with distinct paths, looking up an entry's path gives that entry's platform |
| GameRoots.RootMapValue | src/Program.cs:59 | every value found in the dictionary is the platform of an entry with that path |
| GameRoots.CsRootsDistinct | src/Program.cs:101-111 | the eight C# root paths are distinct, so no entry overwrites another |
| GameRoots.RustRootsAreCsRoots | gamespace/src/main.rs:15-25 | the Rust list is the C# key list without `D:\EA Games`, in the same order |
| GameRoots.EaRootsShareLabel | src/Program.cs:104-105 | both spellings of the EA folder map to the label `EA Games` |
| CsCleanup.IsExeName | src/Program.cs:149 | a name the `*.exe` pattern selects; `RustCleanup.ExeExtensionEndsWithDotExe` relates it to the Rust test |
| CsCleanup.Matches | src/Program.cs:138 | the directories at any depth below the root named the target; `CsCleanup.CsRemovalIsSafe` states what a decided match satisfies |
| CsCleanup.ExeFiles | src/Program.cs:149 | the `.exe` files at any depth below a directory; `CsCleanup.CsRemovalIsSafe` states that a removal happens exactly when there are none |
| CsCleanup.CsDecide | src/Program.cs:131-159 | the guard's walk against a fixed disk; `CsCleanup.CsFirstUniqueRootDecides` and `CsCleanup.CsNotFoundIffNoUniqueRoot` characterise it |
| CsCleanup.InspectRoot | src/Program.cs:133-157 | one root's visit is `CsCleanup.CsVisit`: a missing root or no match is skipped, several matches are ambiguous, one match is unsafe if an `.exe` lies below it and is removed otherwise |
| CsCleanup.SearchRoots | src/Program.cs:131-159 | the loop's outcome is the walk `CsDecide` over the roots, and a removed directory exists |
| CsCleanup.ShouldCleanupOrphanedDirectory | src/Program.cs:123-162 | returns true exactly when the flag is an argument. Without it the disk is unchanged. With it the outcome is `CsDecide` over the dictionary's roots for the joined name. Only a removal changes the disk, and it prunes exactly the removed subtree |
| CsCleanup.CsFirstUniqueRootDecides | src/Program.cs:131-158 | the first root with exactly one match decides about that match. It is a removal exactly when no `.exe` lies below the match. Only the ambiguous roots before it are reported |
| CsCleanup.CsNotFoundIffNoUniqueRoot | src/Program.cs:131-146 | nothing is decided exactly when no existing root has a single match; every root with several matches is then reported |
| CsCleanup.CsRemovalIsSafe | src/Program.cs:138-157 | a removed or refused directory exists, is named the target and lies below an existing root. It is removed exactly when no file below it is an `.exe` |
| RustCleanup.Extension | gamespace/src/main.rs:65 | `Path::extension`: none exactly when the name is `..`, has no dot, or has only a leading one; otherwise the dot-free text after the last dot, which is not the whole name |
| RustCleanup.IsExe | gamespace/src/main.rs:65 | the extension is `exe`; `RustCleanup.ExeExtensionEndsWithDotExe` and `RustCleanup.BareDotExeIsNotExe` relate it to the C# pattern |
| RustCleanup.Matches | gamespace/src/main.rs:43-47 | the child directories of the root whose path string contains the target; `RustCleanup.NamedChildMatches`, `RustCleanup.LongerNameMatches` and `RustCleanup.LongTargetMatchesNothing` characterise it |
| RustCleanup.ExeFiles | gamespace/src/main.rs:62-66 | the match's own files with extension `exe`; `RustCleanup.RustRemovalIsSafe` states that a removal happens exactly when there are none |
| RustCleanup.RustDecide | gamespace/src/main.rs:38-79 | the Rust guard's walk against a fixed disk; `RustCleanup.RustFirstDecisiveRootDecides` and `RustCleanup.RustNotFoundIffNoDecisiveRoot` characterise it |
| RustCleanup.LastDot | gamespace/src/main.rs:65 | the index of the last dot in a name, or none when there is no dot |
| RustCleanup.ExeExtensionEndsWithDotExe | gamespace/src/main.rs:65 | a name with extension `exe` ends in `.exe` |
| RustCleanup.DotDotHasNoExtension | gamespace/src/main.rs:65 | the name `..` has no extension although its last character is a dot |
| RustCleanup.BareDotExeIsNotExe | gamespace/src/main.rs:65 | a file named just `.exe` has no extension, so it is not an executable for the Rust guard |
| RustCleanup.NestedExeOnlySeenByCs | gamespace/src/main.rs:62-66 | an `.exe` in a subfolder of the match makes the C# guard refuse but is not seen by the Rust guard |
| RustCleanup.NamedChildMatches | gamespace/src/main.rs:46 | a child directory named exactly the target is a match |
| RustCleanup.LongerNameMatches | gamespace/src/main.rs:46 | a child whose name only contains the target (`FooBar` for `Foo`) is a match too |
| RustCleanup.LongTargetMatchesNothing | gamespace/src/main.rs:46 | a target longer than every child's path string matches nothing |
| RustCleanup.InspectRoot | gamespace/src/main.rs:39-78 | one root's visit is `RustCleanup.RustVisit`: a missing root is skipped, a root that is a file panics, and matches are handled as in C# but with the Rust matching rules |
| RustCleanup.SearchRoots | gamespace/src/main.rs:38-79 | the loop's outcome is the walk `RustDecide` over the roots, and a removed directory exists |
| RustCleanup.ShouldCleanupOrphanedDirectory | gamespace/src/main.rs:27-82 | returns true exactly when the flag is an argument. Without it the disk is unchanged. With it the outcome is `RustDecide` over the Rust roots. Only a removal changes the disk, and it prunes exactly the removed subtree |
| RustCleanup.RustFirstDecisiveRootDecides | gamespace/src/main.rs:38-78 | the first root that is a file or has a single match decides. A file root panics. Otherwise the match is removed exactly when none of its own files has extension `exe`. Only the earlier ambiguous roots are reported |
| RustCleanup.RustNotFoundIffNoDecisiveRoot | gamespace/src/main.rs:38-59 | nothing is decided exactly when no root is decisive; every root with several matches is then reported |
| RustCleanup.RustRemovalIsSafe | gamespace/src/main.rs:43-77 | a removed or refused directory exists, is a child of an existing root and its path string contains the target. It is removed exactly when none of its own files has extension `exe` |
| RustCleanup.RunProgram | gamespace/src/main.rs:7-13 | `main` as written: the guard receives the program path followed by the user's arguments. A removal prunes exactly the removed subtree, and otherwise the disk is unchanged |
| RustCleanup.ProgramPathLeadsTarget | gamespace/src/main.rs:8 | unless the program path is the flag itself, the target name starts with it |
| RustCleanup.RemovalNeedsProgramPath | gamespace/src/main.rs:8-46 | as written, any directory removed has a path string containing the program's own path |
| RustCleanup.ProgramPathDefeatsCleanup | gamespace/src/main.rs:7-13 | `gamespace.exe --cleanup Foo` finds nothing on a drive holding `D:\Ubisoft\Foo` |
| RustCleanup.RunProgramIntended | gamespace/src/main.rs:7-13 | with the program path skipped, the guard sees only the user's arguments. A removal prunes exactly the removed subtree, and otherwise the disk is unchanged |
| RustCleanup.SkippingProgramPathRemovesFoo | gamespace/src/main.rs:7-13 | with the program path skipped, the same command removes `D:\Ubisoft\Foo` |
| ByteFormatter.Format | src/Program.cs:171-182 | the loop's result is `ScaleOf`: the unit picked by the number of divisions and the value shown, or the out-of-range index |
| ByteFormatter.MagnitudeRange | src/Program.cs:176 | the number of divisions `k` satisfies `1024^k <= bytes < 1024^(k+1)`; it is 0 exactly below 1024 and stops at 5 |
| ByteFormatter.MagnitudeMonotone | src/Program.cs:176 | a larger size never gets a smaller unit |
| ByteFormatter.FormatFailsIff | src/Program.cs:173-181 | formatting fails exactly from 1024^5 bytes on, with the index equal to the table's length |
| ByteFormatter.FormatSmall | src/Program.cs:175 | below 1024 bytes, negative sizes included, the value is shown unchanged in `B` |
| ByteFormatter.FormatScaled | src/Program.cs:176-181 | from 1024 bytes up to the failure bound, the unit is `Suffixes[k]`. The whole part of the value before rendering is `bytes / 1024^k`, between 1 and 1023 |
| ByteFormatter.FormatWholePartBelow1024 | src/Program.cs:176-178 | the whole part of the value before rendering is below 1024 for every successful result of a non-negative size |
| ByteFormatter.FormatExamples | src/Program.cs:171-182 | 1023 stays in `B`, 1024 and 1536 are shown in `KB` (as 1024/1024 and 1536/1024), and 1024^5 fails |
| Report.PadLeft | src/Program.cs:55 | `PadLeft`: the length is the larger of the width and the string's length, the string ends the result, and the rest is spaces |
| Report.PadRight | src/Program.cs:56 | `PadRight`: the length is the larger of the width and the string's length, the string starts the result, and the rest is spaces |
| Report.MaxOf | src/Program.cs:50-52 | `Max` is undefined (throws) exactly on an empty sequence; otherwise it is an element that is at least every element |
| Report.ReportWidthsAreMaxima | src/Program.cs:50-52 | each column width is at least every entry's length and equals some entry's length |
| Report.ReportWidths | src/Program.cs:50-52 | the three column widths; `Report.ReportWidthsAreMaxima` states that each is the longest entry of its column |
| Report.SortBySizeDesc | src/Program.cs:53 | `OrderByDescending` by size; `Report.SortOrdersAndKeepsGames` and `Report.SortIsStable` characterise it |
| Report.SortOrdersAndKeepsGames | src/Program.cs:53 | the games come out largest first, and they are a permutation of the input |
| Report.SortIsStable | src/Program.cs:53 | games of equal size keep their input order, as `OrderByDescending` does |
| Report.SizeTexts | src/Program.cs:52 | when every size formats, there is one text per game |
| Report.SizeTextsOk | src/Program.cs:52 | measuring the size column succeeds exactly when every size is below 1024^5 |
| Report.SizeTextsValues | src/Program.cs:186-198 | the measured texts are the games' formatted sizes, in order |
| Report.PlatformOf | src/Program.cs:58-59 | the parent's platform, or the exception for a missing parent or an unknown key; `Report.ScannedGamePlatform` gives its value for a scanned folder |
| Report.RowOf | src/Program.cs:55-59 | one line of the loop; `Report.RowOfOk` and `Report.RowLayout` characterise it |
| Report.ReportOf | src/Program.cs:50-61 | the whole report; `Report.ReportCompletesIff`, `Report.ReportRowLayout` and `Report.EmptyReportThrows` characterise it |
| Report.RowOfOk | src/Program.cs:55-59 | a line can be printed exactly when its size formats and its folder's parent is a dictionary key |
| Report.CollectShape | src/Program.cs:53-61 | the printed lines are the first rows, in order. The loop stops at the first row that throws, and that exception ends the report |
| Report.PrintRow | src/Program.cs:55-59 | one pass of the loop body is `RowOf`: the size is formatted first, then the parent's platform is looked up |
| Report.PrintRows | src/Program.cs:53-61 | the loop prints the sorted games' rows until the first one that throws |
| Report.PrintReport | src/Program.cs:50-61 | the report is `ReportOf`: the empty checks of the two `Max` calls over names and platforms, then the size column, then the loop |
| Report.EmptyReportThrows | src/Program.cs:50 | with no games, `Max` throws before any line is printed |
| Report.ReportCompletesIff | src/Program.cs:50-61 | the report completes exactly when there is a game and a platform, every size is below 1024^5 and every game's parent is a key; it then prints one line per game |
| Report.SortedRowsCompleteIff | src/Program.cs:53-59 | the loop prints all its lines exactly when no game's row throws |
| Report.RowLayout | src/Program.cs:55-59 | when the entries fit their columns, each column of a line has exactly its width, with the name and platform right-aligned and the size left-aligned |
| Report.ReportRowSource | src/Program.cs:53-59 | line `i` is the row of the `i`-th game in size order, and that game's name, size text and platform fit their columns |
| Report.ReportRowLayout | src/Program.cs:50-60 | line `i` holds the `i`-th largest game. Its name and platform end their columns, its size text starts its column, and each column has exactly the computed width |
| Report.GameFitsColumns | src/Program.cs:50-52 | every game's name and size text fit the computed widths |
| Report.PlatformFits | src/Program.cs:51-59 | every platform found in the dictionary fits the platform column |
| Report.ScannedGamesResolve | src/Program.cs:39-45 | a folder listed under an existing root has that root as its parent, so the platform lookup succeeds |
| Report.ScannedGamePlatform | src/Program.cs:41-59 | in the program's table, a folder listed under a root is shown with that root's platform |
| Report.ScannedReportCompletes | src/Program.cs:39-61 | when every game was listed under one of the program's roots and no size reaches 1024^5, the report prints a line for every game |

## Left out

- Console output is reduced to what decides behaviour. For the guards this is the list of roots reported as ambiguous and the decision (not found, unsafe, removed, or the Rust panic). For the report it is the printed columns. Message texts, the blank lines and the drive header (`DriveInfo` total, used and free space) are not modelled.
- The percentage column (`GetPercentage`) is not modelled. It is floating-point formatting with culture settings.
- `Report.SizeText`: the `0.##` rendering of the double is a parameter of the model (`Render`). `ByteFormatter` keeps the shown value as the exact fraction it is computed from.
- ByteFormatter.FormatScaled: its bound of 1023 is on the whole part of the value before rendering. The `0.##` rounding can still display 1024 in a unit: 1,048,575 bytes is shown as `1024 KB`, and the same happens just below 1024^k for larger k.
- The scan that builds the games is an input sequence, in the order the scan happens to deliver them. This covers `GetAllGameDirs`, `Parallel.ForEach` and `Task.WhenAll`. The order within equal sizes therefore follows that input.
- Size summation over all files (`GetGameInfo`) is not modelled. Neither are per-file errors during it, nor the collected `UnauthorizedAccessException` messages.
- `long` arithmetic is modelled with unbounded integers. The one place where a size is divided is exact on integers, and no sum is modelled.
- `CsCleanup.Matches`: `Directory.GetDirectories` treats the target as a search pattern (`*` and `?` are wildcards). On Windows it also matches letter case insensitively and may match 8.3 short names. The model compares names exactly.
- CsCleanup.Matches: with `--cleanup` alone the target is the empty string. `Directory.GetDirectories` then applies the runtime's search-pattern rules to an empty pattern, which can select every directory below the root. In that case the program can remove a root's only subfolder. The model's exact-name comparison matches nothing for an empty target, so `CsCleanup.CsRemovalIsSafe`'s guarantee that the removed folder is named the target is not one the program gives for this input. The Rust guard's substring test is modelled as written: every child matches an empty target.
- CsCleanup.Matches: a target containing a backslash, such as `Sub\Foo`, is split by `Directory.GetDirectories` at its last separator. The part before it is a folder below (or, through `..`, above) the root, and only the part after it is matched against names. If `root\Sub` holds a single `Foo` with no `.exe` below it, the program removes that folder. The model compares whole names, so such a target matches nothing: the outcome is not found and the disk is unchanged. `CsCleanup.CsRemovalIsSafe`'s guarantee that the removed folder is named the target is therefore not one the program gives for such targets.
- `CsCleanup.IsExeName`: the `*.exe` pattern is also case insensitive on Windows and can match 8.3 names. The model checks for the exact suffix `.exe`.
- Failures of the delete itself (`Directory.Delete` throwing, `remove_dir_all(..).expect(..)` panicking) are not modelled. Neither are the Rust panics on single unreadable entries. A removal always succeeds in the model.
- CsCleanup.InspectRoot: the model assumes every folder below a root can be listed. `Directory.GetDirectories(directory, .., SearchOption.AllDirectories)` (`Program.cs` line 138) and `Directory.GetFiles(foundDirectory, "*.exe", SearchOption.AllDirectories)` (`Program.cs` line 149) throw `UnauthorizedAccessException` for a folder that cannot be listed. The first also throws `ArgumentException` for a rooted target such as `\Foo`. Either exception ends the process at that root: later roots are not visited and nothing is removed. The model has no such outcome. A target containing a backslash also throws when its directory part is missing: `Directory.GetDirectories` reads `Sub\Foo` as a search in `root\Sub` for `Foo`, and throws `DirectoryNotFoundException` when `root\Sub` does not exist. The process then ends at the first existing root.
- GameRoots.RootPaths: the C# walk order assumes that `Dictionary` lists its keys in insertion order (`Program.cs` line 131). .NET documents that order as unspecified; it holds in the current implementation for a dictionary from which nothing is removed.
- The Rust panic of `read_dir(root).expect(..)` is modelled only for a root that exists as a file (`ReadDirFailed`). Permission errors on a directory root are left out.
- `Report.ReportWidths`: the platform width is the maximum over the listed entries, not over the dictionary's values. The two agree when the paths are distinct, which `GameRoots.CsRootsDistinct` proves for the program's table.
- Report.PadLeft: lengths are counted in characters (Unicode scalar values). .NET measures `Name.Length` and pads with `PadLeft` and `PadRight` in UTF-16 code units, so a name with a character outside the Basic Multilingual Plane is measured differently by the program. With the names `🎮` and `ab`, the program computes a name width of 2 and prints `🎮` unpadded, while the model pads it with one space. `Report.PadRight`, `Report.ReportWidths` and `Report.NameLengths` count the same way.
- The order of `Main` is not modelled as a whole. Cleanup mode returns before any report is produced (lines 24-27), and the model keeps the guards and the report as separate operations.

## Findings

| source | as written | input that shows it | evidently intended | confidence | as-written member | corrected member |
|---|---|---|---|---|---|---|
| gamespace/src/main.rs:8-10 | `env::args()` is passed to the guard unfiltered, so the program path becomes the first word of the target name | `C:\Tools\gamespace.exe --cleanup Foo` on a drive holding only `D:\Ubisoft\Foo`: the target is `C:\Tools\gamespace.exe Foo` and nothing is found | skip argv[0], so the target is `Foo` and `D:\Ubisoft\Foo` is removed, as the C# program does | not executed | RustCleanup.RunProgram, RustCleanup.ProgramPathDefeatsCleanup | RustCleanup.RunProgramIntended, RustCleanup.SkippingProgramPathRemovesFoo |
