# git2patch: the build planner, in Dafny

`git2patch.py` builds installation patches for a banking system. It takes
two git tags, compares the trees, and collects the changed BLS sources,
compiled libraries, tables and forms into a patch directory. This project
models the parts of that script that make decisions, and proves
properties of them:

- **Uses graph** (`uses_graph.dfy`, module `UsesGraph`). This is
  `bls_get_uses_graph`. It strips the three kinds of BLS comment from
  every source, finds the `uses` clauses, and maps each lower-cased
  module name to its path and to the `.bls` names it uses.
- **Compilation walk** (`compile.dfy`, module `BlsCompile`). This covers
  `__bls_compile_one_file__`, `__bls_compile_all_implementation__` and
  `bls_compile_all`. The walk is depth first: a module's dependencies are
  compiled before the module, and a module already in `observed_list` is
  never compiled again. The walk is a class whose `observed` field the
  recursive method appends to. It is proved equal to a functional
  specification, and the properties are proved about that specification.
- **`Upgrade(10).eif`** (`eif.dfy`, module `Upgrade10Eif`). These are the
  numbered lines that `make_upgrade10_eif_string_by_file_name` and
  `make_upgrade10_eif_string_for_tables` produce for each table file, and
  the loop of `generate_upgrade10_eif` that numbers them.
- **Build version and platform** (`version.dfy`, module `BuildVersion`):
  - `__get_exe_file_info__` reads the version resource of an executable.
  - `extract_build_version` chooses the first plausible version among the
    candidate executables.
  - `is_20_version` tests whether a version is a release 20.
  - `get_binary_platform` reads the COFF machine type.
- **Patch lists** (`patch_lists.dfy`, module `PatchLists`). `copy_bll`
  splits the compiled libraries between the bank and client parts.
  `get_git_log` removes repeated Jira tickets.
- **Helpers.** `text.dfy` holds the string operations of Python that the
  script uses. `paths.dfy` holds `get_last_element_of_path`. `wrappers.dfy`
  holds `Option`.

Where the behaviour described for the program differs from its code, the
model follows the code:

- A source that cannot be decoded stops `bls_get_uses_graph` with an
  exception. It is not skipped: `open_encoding_aware` returns `None`, and
  `with None` raises. `Build` returns `None` for it.
- The compilation is a sequential recursion over a single list, not a
  scheduler of parallel jobs.
- `__get_exe_file_info__` reads the 32-bit words 4 and 5 of a block that
  starts 32 bytes after the key. Because `VS_FIXEDFILEINFO` starts 34 bytes
  after the key, these words straddle the fixed structure's fields. The
  version printed is therefore the product version's major and minor
  numbers, then the file version's build number, then the product
  version's revision (`VersionInfoLayout`).
- A file too short for the 13 words raises `struct.error`. That error is
  not an `IOError`, so the loop of `extract_build_version` does not catch
  it. The outer handler then raises `e`, a name that is never bound, so
  the call ends in an exception (`Raised`).
- `is_20_version` is a substring test. It also accepts versions such as
  `19.2.20.1` and `21.20.10.0`.

## Model

| member | source | states |
|---|---|---|
| Paths.LastPathElement | git2patch.py:335-341 | The result is the part of the path after its last separator: it holds no separator, ends the path, and is preceded by a separator unless it is the whole path. |
| Paths.LastPathElementOfJoin | git2patch.py:335-341 | A plain file name after a directory ending in a separator is the last element of the path. |
| UsesGraph.ReplaceUnwantedSymbols | git2patch.py:1401-1405 | The loop removes every match of one comment pattern, leaving the result of `StripKind`, which is a subsequence of the input. |
| UsesGraph.StripComments | git2patch.py:1414-1418 | Defines the removal of brace comments, then `(* *)` comments, then `//` comments, in that order; its properties are the rows below. |
| UsesGraph.StripCommentsSubseq | git2patch.py:1414-1418 | Removing the three comment kinds only deletes characters: the result is a subsequence of the source. |
| UsesGraph.StripCommentsNoComment | git2patch.py:1414-1418 | A text without `{`, `(` or `/` is left unchanged by the comment stripping. |
| UsesGraph.BraceCommentFirst | git2patch.py:1414-1420 | A leading `{...}` comment is removed and the rest of the text is kept. |
| UsesGraph.CommentedUses | git2patch.py:1414-1429 | `{ // x } uses Foo;` yields exactly the dependency `Foo.bls`: the `//` inside the brace comment does not hide the clause. |
| UsesGraph.UsesClauses | git2patch.py:1420 | `re.findall` with Python 3.7 rules for empty matches: a clause holds no `;` except possibly as its first character, when it follows an empty match at the same position. |
| UsesGraph.UsesClausesSound | git2patch.py:1420 | Every clause found is the text of a match: it starts where `uses` and one white-space character end, and it stops at a `;` with no `;` in between. |
| UsesGraph.UsesClausesFound | git2patch.py:1420 | A position after `uses` and white space with a `;` at or after it yields at least one clause. |
| UsesGraph.FindUsesNonEmpty | git2patch.py:1420 | `re.findall` finds a clause exactly when some `uses` and white space are followed later by a `;`. |
| UsesGraph.RetryAfterEmptyMatch | git2patch.py:1420 | `uses ;x;` gives the clauses `""` and `;x`: after an empty match the next match starts at the same place but may not be empty. |
| UsesGraph.DepsOf | git2patch.py:1414-1437 | Defines one file's dependency list: comments removed, clauses found, each clause split at commas, each piece trimmed and given `.bls`, empty pieces dropped; its properties are `DepsOfWellFormed` and `NoUsesNoDeps`. |
| UsesGraph.NoUsesNoDeps | git2patch.py:1420-1437 | A source that, without its comments, has no `uses` followed by white space has an empty dependency list. |
| UsesGraph.DepsOfPiecesWellFormed | git2patch.py:1429 | The comprehension over the comma-separated pieces yields at most one dependency per piece, each a non-empty trimmed name followed by `.bls`. |
| UsesGraph.DepsOfClausesWellFormed | git2patch.py:1426-1437 | Every dependency of all clauses together is well formed. |
| UsesGraph.DepsOfWellFormed | git2patch.py:1414-1437 | Every dependency found in a source is a trimmed, non-empty module name with `.bls` appended. |
| UsesGraph.AccumulateUses | git2patch.py:1424-1443 | The file's entry ends as its path together with the dependencies of all its `uses` clauses, in order; other keys are unchanged. |
| UsesGraph.AddFileEntry | git2patch.py:1409-1443 | One decodable file's step records the file under its lower-cased key, with its path and the dependencies of its clauses, as the functional `Insert` does. `BuildUsesGraph` stops at an undecodable file. |
| UsesGraph.BuildUsesGraph | git2patch.py:1400-1445 | The loop over the files returns the functional graph `GraphOf(files)`. |
| UsesGraph.BuildNoneStays | git2patch.py:1409-1410 | Once a file fails to open, the scan stays failed whatever files follow. |
| UsesGraph.BuildDefined | git2patch.py:1409-1412 | The scan succeeds exactly when every file's step does. |
| UsesGraph.BuildWellFormed | git2patch.py:1422-1424 | The insertion order lists every key of the dictionary exactly once. |
| UsesGraph.BuildKeys | git2patch.py:1422-1424 | After a successful scan every step succeeded, and the keys are exactly the keys of the scanned files. |
| UsesGraph.BuildLastEntry | git2patch.py:1422-1443 | The entry of a key is the one scanned from the last file with that key. |
| UsesGraph.GraphOfDefined | git2patch.py:1400-1445 | `bls_get_uses_graph` returns a graph exactly when every source decodes. |
| UsesGraph.GraphOfKeys | git2patch.py:1422-1424 | When every source decodes there is a graph, its keys are exactly the lower-cased base names of the sources, and the order lists each once. |
| UsesGraph.GraphOfLastEntry | git2patch.py:1422-1443 | A module with several sources keeps the path and dependencies of the last one. |
| BlsCompile.CompiledOkRaw | git2patch.py:1467-1470 | The success test holds exactly when the raw output contains `Compiled succesfully` or `Compiled with warnings`: indenting the log does not change the verdict. |
| BlsCompile.IndentedContains | git2patch.py:1467-1470 | A marker without newline or tab occurs in the indented output exactly when it occurs in the raw output. |
| BlsCompile.CompileOneFile | git2patch.py:1449-1476 | `None` exactly when `bscc.exe` is missing; otherwise true exactly when the raw compiler output contains `Compiled succesfully` or `Compiled with warnings`. |
| BlsCompile.Visit | git2patch.py:1480-1505 | Defines one call of `__bls_compile_all_implementation__` on the run's state: skip a module already observed or not in the graph, visit its dependencies in order, then compile it; its properties are the rows below. |
| BlsCompile.VisitAll | git2patch.py:1509-1524 | Defines the loop of `bls_compile_all` over the graph's modules, stopping when the compiler is missing; its properties are `CompileAllObserved`, `CompileAllNoCompiler` and `CompileAllAllSucceed`. |
| BlsCompile.VisitGood | git2patch.py:1480-1505 | One visit only appends runs and keeps the invariant: each run is of a module of the graph that had not compiled yet, comes after a run of each of its dependencies in the graph, and gets the compiler's verdict; `observed_list` is the list of successful runs. Unless the compiler is missing, the module visited ends up tried. |
| BlsCompile.VisitRetries | git2patch.py:1484-1502 | A module of the graph that has not compiled is compiled again each time the walk reaches it, and its run comes last. |
| BlsCompile.CompileAllObserved | git2patch.py:1509-1524 | `observed_list` holds no module twice and only modules of the graph, so its length never exceeds the number of modules. |
| BlsCompile.CompileAllNoCompiler | git2patch.py:1453-1455 | Without `bscc.exe`, the first module stops the walk: nothing is run or compiled, and the result is False. |
| BlsCompile.AllOkOrdered | git2patch.py:1491-1502 | When every run succeeded, `observed_list` lists each module after all of its dependencies that are in the graph. |
| BlsCompile.CompileAllAllSucceed | git2patch.py:1509-1524 | When every module compiles, the result is True and `observed_list` holds exactly the graph's modules, each after its dependencies. |
| BlsCompile.GraphOfLowerKeys | git2patch.py:1422 | The graph's keys are lower case, so the walk's `lower()` finds them. |
| BlsCompile.Compilation.constructor | git2patch.py:1514 | The walk starts with an empty `observed_list`. |
| BlsCompile.Compilation.CompileModule | git2patch.py:1480-1505 | The recursive method leaves `observed_list`, the runs and the abort flag exactly as the specification `Visit` does. |
| BlsCompile.Compilation.CompileAll | git2patch.py:1509-1524 | The loop over the graph's modules ends in the state of `CompileAllSpec` and returns False exactly when the compiler was missing. |
| Upgrade10Eif.ByFileName | git2patch.py:1077-1226 | Defines the line for one file name, with the table templates of `TableTail` and the type templates of `KindTail`; its properties are the rows below. |
| Upgrade10Eif.WrittenIffHasLine | git2patch.py:1171-1226 | A line is written exactly when the name has a `(NN).eif` or `(data).eif` suffix and the type in it is not `data`. |
| Upgrade10Eif.NoSuffixNoLine | git2patch.py:1173-1175 | There is no result exactly when no suffix matches anywhere in the name. |
| Upgrade10Eif.PlainNameTag | git2patch.py:1173-1179 | In `STEM(NN).eif` the pattern matches the whole suffix, the type is `NN`, and removing the suffix leaves `STEM`. |
| Upgrade10Eif.PlainNameLine | git2patch.py:1171-1224 | `STEM(NN).eif` gets the line `<counter\|NN\|'STEM'...>` with the template of its type, or a blank line for an unknown type. |
| Upgrade10Eif.DataFileSkipped | git2patch.py:1177-1178 | A `(data).eif` file, in any letter case, gets an empty line, which is not written. |
| Upgrade10Eif.ReplaceTrailingTag | git2patch.py:1179 | Removing the suffix from a name whose only occurrence of it is at the end leaves the stem. |
| Upgrade10Eif.TableTailCaseless | git2patch.py:1077-1167 | The table template depends only on the lower-cased file name. |
| Upgrade10Eif.VersionFileLine | git2patch.py:1264-1265 | The first line is the configuration line of `Version(14).eif` with number 1. |
| Upgrade10Eif.NumberedLines | git2patch.py:1266-1272 | Numbering only the written lines gives consecutive numbers from the start counter to the kept names. |
| Upgrade10Eif.LinesCount | git2patch.py:1264-1272 | The file starts with the line of `Version(14).eif` and then holds one line per file that gets one. |
| Upgrade10Eif.LinesNumbered | git2patch.py:1266-1272 | Line `i` after the first is the non-empty line of the `i`-th file that gets one, made with number `i + 1`. |
| Upgrade10Eif.GenerateUpgrade10Lines | git2patch.py:1264-1272 | The loop with its counter writes exactly `Lines(names)`. |
| BuildVersion.U32RoundTrip | git2patch.py:1348-1349 | A 32-bit word written little endian is read back unchanged by `struct.unpack("13I")`. |
| BuildVersion.FormatInjective | git2patch.py:1354-1355 | The dotted version string determines its four numbers. |
| BuildVersion.ExeFileInfo | git2patch.py:1336-1355 | Defines `__get_exe_file_info__`: no version for an unreadable file or one without the `VS_VERSION_INFO` signature, an exception when fewer than 13 words follow it, otherwise the four numbers of words 4 and 5; its properties are `ExeFileInfoShape` and `VersionInfoLayout`. |
| BuildVersion.ExeFileInfoShape | git2patch.py:1336-1355 | A version read from a file is four dotted numbers below 65536 and is never `unknown`. |
| BuildVersion.VersionInfoLayout | git2patch.py:1347-1355 | On a `VS_VERSIONINFO` block, the version read is product major, product minor, file build and product revision. |
| BuildVersion.PlausibleNumbers | git2patch.py:1374 | A decoded version is skipped exactly when its numbers are 1.0.0.0 or 0.0.0.0. |
| BuildVersion.Select | git2patch.py:1358-1381 | Defines the loop of `extract_build_version` over the candidates' outcomes; its properties are `SelectRaises` and `SelectReturns`. |
| BuildVersion.SelectRaises | git2patch.py:1365-1381 | The call raises exactly when a candidate raises before any plausible version is found. |
| BuildVersion.SelectReturns | git2patch.py:1359-1382 | The result is the version of the first candidate with a plausible one, or `unknown` when every candidate is read without one. |
| BuildVersion.ExtractBuildVersion | git2patch.py:1358-1382 | The loop with its early exits returns the selection above, and `unknown` when the build directory is missing. |
| BuildVersion.IsVersion20 | git2patch.py:1547-1548 | Defines `is_20_version` as the substring test for `20.1`, `20.2` or `20.3`; its properties are the three rows below. |
| BuildVersion.Release20 | git2patch.py:1547-1548 | Every version 20.1, 20.2 or 20.3 counts as a release 20. |
| BuildVersion.SubstringTestReachesBuild | git2patch.py:1547-1548 | `19.2.20.1` also counts as a release 20, because the test looks for a substring. |
| BuildVersion.SubstringTestReachesMinor | git2patch.py:1547-1548 | `21.20.10.0` also counts as a release 20. |
| BuildVersion.BinaryPlatform | git2patch.py:1300-1332 | Defines `get_binary_platform`, including its UTF-8 test on the first two bytes; its properties are `ImagePlatform` and `NotAnExecutable`. |
| BuildVersion.ImagePlatform | git2patch.py:1300-1332 | An image with `MZ`, `e_lfanew` at offset 60 and a machine type gets that machine's platform: Win32 for 332, Win64 for 512 and 34404, otherwise Unknown. |
| BuildVersion.NotAnExecutable | git2patch.py:1306-1310 | A file whose first two bytes are ASCII other than `MZ` has no platform. |
| PatchLists.SplitBll | git2patch.py:1842-1844 | Defines the three library lists of `copy_bll` by set differences; its properties are `SplitBllCovers`. |
| PatchLists.SplitBllCovers | git2patch.py:1842-1844 | Every changed library goes to the bank part or with the RTS files; the client lists hold no bank or RTS library, the client list holds no MBA library, and each list contains the next. |
| PatchLists.Dedup | git2patch.py:2023 | Defines `list(dict.fromkeys(...))`: a value is appended only when it is not already present; its properties are the rows below. |
| PatchLists.DedupKeepsFirstOccurrences | git2patch.py:2023 | The ticket list keeps each ticket once, loses or adds none, and keeps the order of first mention. |
| PatchLists.DedupIdempotent | git2patch.py:2023 | Removing repeats a second time changes nothing. |
| PatchLists.DedupOfDistinct | git2patch.py:2023 | A list without repeats is unchanged. |

## Left out

- Git and the file system are left out: the calls to git, the directory listings, copying and directory creation. The model takes the listed names and the file contents as parameters.
- Running `bscc.exe` is left out, as is the windows-1251 decoding of its output. The compiler is a function from the module and the modules already compiled to the text it prints.
- `open_encoding_aware` is not modelled byte by byte. Each source is given as its decoded text, or as `None` when neither windows-1251 nor UTF-8 decodes it.
- Logging, the timing messages and the percentage in the `COMPILED n of m` line (a float) are left out.
- `Compilation.CompileModule` requires that the uses graph has no cycle, witnessed by a rank. On a cycle, the script recurses until Python's recursion limit.
- `os.path.normpath` is left out. Paths are taken already normalised, and both `\` and `/` count as separators.
- Python's `\d` is modelled on ASCII digits and `\w` on ASCII letters, digits, `_` and the Cyrillic letters; other Unicode letters and digits are left out. `\s` is the full set of `str.isspace`. `IGNORECASE` and `lower()` are modelled on ASCII and basic Cyrillic capitals only (U+0400 to U+042F); other capitals, such as `À`, are left as they are.
- `get_version_from_win32_pe` is left out. Nothing calls it, and it cannot return a version: it replaces the data it read with `b''` before unpacking 13 words from it.
- In `copy_bll`, the check that every changed library was compiled, and the copying itself, are left out. Only the split of the lists is modelled.
- The regular expression that extracts Jira tickets from the git log is left out. Only the removal of repeats is modelled.
- `extract_build_version`'s listing of the five executable names is left out. The candidates come in the order the listing gives them.
- `ExeFileInfoShape`: it does not state which bytes produced the version. `VersionInfoLayout` states that for a well-formed block.
- `UsesClauses` follows `re.findall` as in Python 3.7 to 3.9, which the version check of the script admits. Under Python 3.6 the search resumed one character after an empty match, so `uses ;x;` gave only the empty clause.
