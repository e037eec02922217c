# steam-bulk-uninstaller, modelled in Dafny

This project models the two core modules of steam-bulk-uninstaller, a tool
that lists the Steam games installed on a Linux machine and removes the
selected ones in bulk, and proves properties of that model.

- **Catalog** (`steam_uninstaller/steam.py`):
  - the parser of Valve's KeyValues ("VDF") text format;
  - how the Steam root is found;
  - how library folders are listed from `libraryfolders.vdf`;
  - how playtimes are gathered from every user's `localconfig.vdf`;
  - how each library's `appmanifest_*.acf` files become `SteamGame` values;
  - how the games of all libraries are sorted by lower-cased name.
- **Deletion engine** (`steam_uninstaller/uninstaller.py`):
  - directory sizes;
  - the per-game plan of paths to delete;
  - the estimate of space to be freed;
  - the removal loop of one game, which stops at the first exception and classifies it;
  - the batch with its summary.

The disk is an abstract value, `Fs = map<Path, Node>`. A `Path` is its list
of components and a node is `File(size, text)` or `Dir`. A file whose `text`
is `None` raises when read.

The deletion engine is a `class Disk` whose field `fs` the removals update
in place. Exceptions from `stat()`, `unlink()` and `rmtree()` are injected as
two maps from paths to faults. Each fault carries a kind and a message:
- `Permission` is a `PermissionError`;
- `OsFailure` is any other `OSError`;
- `Unexpected` is any other exception; only `unlink()` and `rmtree()` raise one.

Python exceptions that the source lets escape become `Failure` values of
`CatalogError`:
- `read_text` of `libraryfolders.vdf`;
- `.items()` on a string;
- `Path()` of a mapping;
- `iterdir()` of a file;
- the sort key on a name that is a mapping.

The listing order of `glob`, `iterdir` and `rglob` is unspecified. The
methods therefore visit sets in any order, and the specifications are folds
proved independent of the order (`Steam.YieldRemove`,
`Steam.PlaytimeOverRemove`, `Uninstaller.SizeOverRemove`).

Modules, leaf first:
- `Wrappers` (Option, Result);
- `Paths`;
- `Text` (substring test, `lower()`, string order, `int()`);
- `Vdf`;
- `Steam`;
- `Uninstaller`.

Behaviour worth noting:
- **Values with no key.** A quoted string with no pending key becomes the
  pending key; it is not dropped. A pending key also survives a `}`.
- **Duplicate library paths.** Listed library paths are not de-duplicated;
  only the root is checked before it is inserted at the front.
- **Escaping exceptions.** Some structural surprises escape
  `get_library_folders`, `get_playtime_data` and the final sorts as
  exceptions rather than counting as "nothing found". Examples are a
  `libraryfolders` value that is a string, and a `"path"` or a `name` that
  is a mapping.
- **A broken `Playtime`.** A `"Playtime"` that is a mapping ends the scan of
  that user's apps. Playtimes already recorded from that user are kept.

## Model

| member | source | states |
|---|---|---|
| Paths.SplitSegment | steam_uninstaller/steam.py:146 | a text with no "/" is one component, or none when it is empty or "." |
| Paths.SplitSlash | steam_uninstaller/steam.py:146 | the components of `a + "/" + b` are those of `a` followed by those of `b` |
| Paths.Join | steam_uninstaller/steam.py:24-39 | `base / s` is `base` followed by the components of a relative `s`; an absolute `s` replaces `base` entirely |
| Paths.JoinJoin | steam_uninstaller/steam.py:24-39 | `base / a / b == base / (a + "/" + b)` for a non-empty `a` and a relative `b` |
| Paths.ReadText | steam_uninstaller/steam.py:136 | an existing file gives its contents, or none when it cannot be read; any other path gives none |
| Paths.ChildrenParent | steam_uninstaller/steam.py:170 | `iterdir()` yields exactly the existing entries whose parent is the directory |
| Paths.DescendantsStep | steam_uninstaller/uninstaller.py:55 | on a filesystem where every entry's directories exist, `rglob("*")` finds the directory's entries plus what it finds beneath each of them |
| Text.Contains | steam_uninstaller/steam.py:234 | `sub in s` holds iff `sub` occurs in `s` at some index |
| Text.Lower | steam_uninstaller/steam.py:265 | `lower()` keeps the length, lower-cases each character, and leaves no ASCII capital |
| Text.LowerAppend | steam_uninstaller/steam.py:265 | lower-casing distributes over concatenation |
| Text.LowerIdempotent | steam_uninstaller/steam.py:265 | lower-casing a lower-cased text changes nothing |
| Text.LexLeReflexive | steam_uninstaller/steam.py:265 | string order is reflexive |
| Text.LexLeTotal | steam_uninstaller/steam.py:265 | any two strings are ordered one way or the other, so the sort key is total |
| Text.LexLeTransitive | steam_uninstaller/steam.py:265 | string order is transitive |
| Text.ParseShow | steam_uninstaller/steam.py:238 | `int(str(n)) == n` for every integer |
| Text.ParseIntValue | steam_uninstaller/steam.py:237-240 | `int(s)` gives `v` exactly when `s`, stripped, is digits of value `v`, optionally after "+", or after "-" with value `-v`; anything else takes the `ValueError` path |
| Text.StripLeft | steam_uninstaller/steam.py:238 | leading whitespace is stripped away |
| Text.StripRight | steam_uninstaller/steam.py:238 | trailing whitespace is stripped away |
| Text.ParsePadded | steam_uninstaller/steam.py:238 | whitespace around a number does not change what `int()` gives |
| Vdf.QuoteAt | steam_uninstaller/steam.py:74 | the scan for a closing quote stops at the first quote and passes only non-quote characters |
| Vdf.Tokenize | steam_uninstaller/steam.py:74-81 | the text of every string token contains no quote |
| Vdf.TokenizeSkipsFiller | steam_uninstaller/steam.py:74-81 | text with no quote and no brace produces no token |
| Vdf.TokenizeBraces | steam_uninstaller/steam.py:74-81 | text with no quote is read as exactly its braces, in order |
| Vdf.UnclosedQuote | steam_uninstaller/steam.py:74-81 | a quote that is never closed matches nothing and is skipped; the braces after it are still read as tokens |
| Vdf.TokenizeLexeme | steam_uninstaller/steam.py:74-81 | a brace, or a quoted text with braces or newlines inside, is read back as exactly that one token |
| Vdf.TokenizeRender | steam_uninstaller/steam.py:74-81 | tokens written out with the same filler before each of them tokenize back to the same tokens |
| Vdf.Keys | steam_uninstaller/steam.py:144 | the keys of a mapping in iteration order, one per entry |
| Vdf.Lookup | steam_uninstaller/steam.py:142 | `get(k)` finds a value exactly when `k` is a key |
| Vdf.Put | steam_uninstaller/steam.py:100 | after `d[k] = v`, `k` holds `v` and every other key keeps its value |
| Vdf.PutKeys | steam_uninstaller/steam.py:100 | an overwritten key keeps its position; a new key is appended |
| Vdf.PutPut | steam_uninstaller/steam.py:100 | writing a key twice equals writing only the last value |
| Vdf.PutFresh | steam_uninstaller/steam.py:100 | writing an absent key appends one entry and changes nothing else |
| Vdf.PutSame | steam_uninstaller/steam.py:100 | writing back the stored value leaves the mapping unchanged |
| Vdf.ScopeExtend | steam_uninstaller/steam.py:87-88 | a key holding a mapping extends the stack by that mapping |
| Vdf.ScopePrefix | steam_uninstaller/steam.py:92-93 | popping the stack leaves a path that still leads through mappings |
| Vdf.ReplaceScope | steam_uninstaller/steam.py:87-100 | an in-place write to the innermost mapping is seen through the path of keys from the root |
| Vdf.ReplaceScopeExtend | steam_uninstaller/steam.py:87-88 | replacing a nested mapping is one write of its key in the enclosing mapping |
| Vdf.ReplaceScopeFrame | steam_uninstaller/steam.py:87-100 | a write to the innermost mapping leaves each enclosing mapping with the same keys, in order, and the same values off the stack |
| Vdf.Step | steam_uninstaller/steam.py:83-101 | every token keeps the stack a chain of live mappings, so no input makes the parser fail |
| Vdf.Run | steam_uninstaller/steam.py:80-101 | any token sequence keeps the stack a chain of live mappings |
| Vdf.ParseVdf | steam_uninstaller/steam.py:58-103 | the imperative single pass with a stack and a pending key returns the parse of the text |
| Vdf.RunAppend | steam_uninstaller/steam.py:80-101 | parsing is one left-to-right pass: running two token runs in turn is running them joined |
| Vdf.StepClose | steam_uninstaller/steam.py:90-93 | `}` at the root is a no-op; otherwise it pops exactly the innermost mapping; the tree and the pending key are unchanged |
| Vdf.StepOpenNoKey | steam_uninstaller/steam.py:83-85 | `{` with no pending key changes nothing |
| Vdf.StepOpenKey | steam_uninstaller/steam.py:83-89 | `{` after key `k` stores a fresh empty mapping under `k` in the innermost mapping, replacing any earlier value, opens it and clears the key |
| Vdf.StepKey | steam_uninstaller/steam.py:97-98 | a string with no pending key becomes the key and changes no mapping |
| Vdf.StepValue | steam_uninstaller/steam.py:99-101 | a string after key `k` is stored under `k` in the innermost mapping and clears the key; the stack is unchanged |
| Vdf.StepWritesInnermost | steam_uninstaller/steam.py:87-100 | no token other than `}` changes an enclosing mapping's keys or any value off the stack |
| Vdf.DanglingKeyDropped | steam_uninstaller/steam.py:97-103 | a final key with no value never reaches the result |
| Vdf.StrayCloseIgnored | steam_uninstaller/steam.py:90-93 | a stray `}` before anything is open changes no result |
| Vdf.SerializeRenderable | steam_uninstaller/steam.py:74 | the tokens of a well-formed mapping can be written as text |
| Vdf.RunSerialize | steam_uninstaller/steam.py:80-101 | the tokens of a mapping's entries write those entries into the innermost mapping and leave the stack as it was |
| Vdf.RebuildFresh | steam_uninstaller/steam.py:100 | writing distinct, absent keys one after another appends the entries unchanged |
| Vdf.ParseRoundTrip | steam_uninstaller/steam.py:58-103 | parsing a well-formed nested mapping written out with the same filler before each token gives it back exactly |
| Vdf.DuplicateKeyLastWins | steam_uninstaller/steam.py:100 | a key repeated in one mapping keeps only its last value |
| Steam.SteamGame.ManifestPath | steam_uninstaller/steam.py:21-24 | the manifest is steamapps joined with "appmanifest_" + appid + ".acf"; it lies strictly inside the library's steamapps directory, under a name that starts with "appmanifest_" |
| Steam.ManifestPathOf | steam_uninstaller/steam.py:21-24 | for an app id with no "/", the manifest is exactly the file steamapps/appmanifest_<appid>.acf of the library |
| Steam.ManifestPathDistinct | steam_uninstaller/steam.py:21-24 | two games of one library, with app ids free of "/", share a manifest exactly when they share an app id |
| Steam.SteamGame.GamePath | steam_uninstaller/steam.py:26-29 | the game folder is steamapps/common joined with the install directory; an absolute install directory replaces it |
| Steam.SteamGame.CompatdataPath | steam_uninstaller/steam.py:31-34 | the Proton prefix is steamapps/compatdata joined with the app id; an absolute app id replaces it |
| Steam.SteamGame.ShadercachePath | steam_uninstaller/steam.py:36-39 | the shader cache is steamapps/shadercache joined with the app id; an absolute app id replaces it |
| Steam.JoinedInside | steam_uninstaller/steam.py:29 | a relative, non-empty name with no ".." joined to a directory lies strictly beneath it |
| Steam.ConfinedPathsSeparate | steam_uninstaller/steam.py:21-39 | with a confined install directory and app id, the four paths lie in four separate areas and none contains another |
| Steam.FirstRoot | steam_uninstaller/steam.py:112-122 | the result is the first candidate that exists and has steamapps, and none exactly when no candidate qualifies |
| Steam.FindSteamRoot | steam_uninstaller/steam.py:106-122 | the loop over the candidates returns the first root |
| Steam.ListedLibrariesContents | steam_uninstaller/steam.py:144-148 | the listing fails iff some entry's "path" is a mapping; otherwise it holds exactly the existing paths named by mapping entries |
| Steam.PrependStep | steam_uninstaller/steam.py:144-148 | one loop step appends the entry's existing library, or fails with its error |
| Steam.GetLibraryFolders | steam_uninstaller/steam.py:125-154 | the loop's result, failures included, is the library list |
| Steam.LibraryFoldersContents | steam_uninstaller/steam.py:131-154 | no libraryfolders.vdf gives exactly `[root]`; otherwise the root is present, and is first when not listed, and every other library is exactly a listed existing path |
| Steam.LibraryFoldersListed | steam_uninstaller/steam.py:150-152 | putting the root in front when it is missing keeps every listed path and only those |
| Steam.MergeMax | steam_uninstaller/steam.py:196-197 | merged playtimes have the keys of both sides; each value is the larger of the two and comes from one side |
| Steam.MergeMaxCommutes | steam_uninstaller/steam.py:170-197 | the order in which two users are visited does not matter |
| Steam.MergeMaxAssociates | steam_uninstaller/steam.py:170-197 | the grouping of users does not matter |
| Steam.MergeMaxEmpty | steam_uninstaller/steam.py:168 | an empty set of playtimes is neutral |
| Steam.ScanAppsMerge | steam_uninstaller/steam.py:191-199 | scanning a user's apps on top of earlier playtimes is merging with that user's own scan |
| Steam.ScanAppsSource | steam_uninstaller/steam.py:191-199 | every recorded playtime is an earlier one or the integer "Playtime" of an app entry with that key |
| Steam.ScanAppsGrows | steam_uninstaller/steam.py:196-197 | the scan never drops an app or lowers a playtime recorded before it |
| Steam.ScanAppsKeeps | steam_uninstaller/steam.py:191-201 | an app whose integer "Playtime" comes before any mapping-valued one is recorded with at least that many minutes |
| Steam.PlaytimeOverRemove | steam_uninstaller/steam.py:170 | the playtime fold over users does not depend on the order of `iterdir()` |
| Steam.PlaytimeOverHighest | steam_uninstaller/steam.py:157-204 | an app has a playtime iff some user records one, and the value is the highest any user records |
| Steam.AddUserPlaytime | steam_uninstaller/steam.py:171-202 | one user's iteration merges that user's playtimes into those gathered, keeping the maximum |
| Steam.GetPlaytimeData | steam_uninstaller/steam.py:157-204 | the loop over userdata computes the playtimes of all users; a userdata file fails |
| Steam.Manifests | steam_uninstaller/steam.py:219 | the glob finds exactly the existing entries steamapps/<n> of the library whose name n matches "appmanifest_*.acf" |
| Steam.OwnManifestFound | steam_uninstaller/steam.py:21-24 | a game's own manifest, when it exists and its app id has no "/", is steamapps/appmanifest_<appid>.acf and is among those the glob finds |
| Steam.AppStateOf | steam_uninstaller/steam.py:221-226 | a manifest yields an AppState exactly when it reads and its root "AppState" entry is a non-empty mapping, and then yields those entries |
| Steam.MissingInstallDirAsWritten | steam_uninstaller/steam.py:228-259 | as written, a manifest without "installdir" is listed with steamapps/common itself as its game folder; the corrected reading skips it |
| Steam.ConfinedListing | steam_uninstaller/steam.py:228-259 | the corrected listing keeps exactly the games the code lists whose install directory and app id are confined, and treats every other manifest alike |
| Steam.ListedGame | steam_uninstaller/steam.py:219-263 | a game the code lists: AppState non-empty; name free of "Runtime" and "Proton"; game folder exists; flags exactly the existence of compatdata and shadercache; size defaults to 0; playtime defaults to 0 |
| Steam.ListedGameFields | steam_uninstaller/steam.py:228-259 | a game of the corrected listing has a confined install directory and app id, and belongs to its own library |
| Steam.ListedGameConfined | steam_uninstaller/steam.py:243-258 | a game of the corrected listing has its folders strictly inside steamapps/common, compatdata and shadercache of its own library |
| Steam.YieldRemove | steam_uninstaller/steam.py:219 | the listing of a library does not depend on the glob's order |
| Steam.YieldMember | steam_uninstaller/steam.py:219-263 | a game is in a library's listing iff some manifest lists it |
| Steam.GatherStep | steam_uninstaller/steam.py:219-263 | one manifest more: its game joins the listing, and the unnamed flag records a name that is a mapping |
| Steam.InsertByName | steam_uninstaller/steam.py:265 | inserting into a sorted list keeps it sorted and adds exactly that game |
| Steam.HeadBelowInserted | steam_uninstaller/steam.py:265 | the head of a sorted list stays below everything after inserting a game not below it |
| Steam.SortByName | steam_uninstaller/steam.py:265 | the result is ordered by lower-cased name and is a permutation of the input |
| Steam.ReadManifests | steam_uninstaller/steam.py:219-263 | the loop over the manifests gathers exactly the listed games, and notes whether a game with a mapping name was kept |
| Steam.GetInstalledGames | steam_uninstaller/steam.py:207-265 | the result is the games the code lists for the library, sorted by name; it fails when a kept name is a mapping |
| Steam.AcrossFailure | steam_uninstaller/steam.py:278-279 | gathering fails iff some library fails, and then with the first failing library's error |
| Steam.AcrossGames | steam_uninstaller/steam.py:278-279 | a successful gathering holds exactly the games of every library |
| Steam.AcrossStep | steam_uninstaller/steam.py:278-279 | one library more: its games join those gathered, or its failure ends the gathering |
| Steam.GatherLibraries | steam_uninstaller/steam.py:276-279 | the loop over the libraries concatenates their games, or fails as the first failing library does |
| Steam.GetAllInstalledGames | steam_uninstaller/steam.py:268-281 | no root gives no games; otherwise the games of all libraries, as a permutation, sorted by lower-cased name |
| Steam.LibraryGamesMember | steam_uninstaller/steam.py:219-265 | every game of a library was listed, as the code is written, by one of its manifests |
| Steam.CatalogMember | steam_uninstaller/steam.py:268-281 | every catalogued game was listed, as the code is written, by a manifest of a library of the found root, with the root's playtimes |
| Uninstaller.SizeOverRemove | steam_uninstaller/uninstaller.py:55-60 | the total size does not depend on the walk's order |
| Uninstaller.SizeOverUnion | steam_uninstaller/uninstaller.py:55-60 | the sizes of disjoint sets of entries add up |
| Uninstaller.SizeOverZero | steam_uninstaller/uninstaller.py:56-60 | entries that are directories or unreadable files add nothing |
| Uninstaller.SizeOverFrame | steam_uninstaller/uninstaller.py:55-60 | the total depends only on the sizes of the entries walked |
| Uninstaller.DirSizeReadable | steam_uninstaller/uninstaller.py:48-64 | an existing directory's size is the sum over exactly the files beneath it whose stat() succeeds |
| Uninstaller.Disk.GetDirSize | steam_uninstaller/uninstaller.py:48-64 | the loop over the walk returns 0 for a missing path, else the directory's size |
| Uninstaller.GamePaths | steam_uninstaller/uninstaller.py:67-90 | the plan has one to four entries and the manifest always comes first |
| Uninstaller.GamePathsOrder | steam_uninstaller/uninstaller.py:73-90 | every entry after the manifest exists, and the entries come in the order manifest, game files, Proton data, shader cache |
| Uninstaller.GamePathsIncludes | steam_uninstaller/uninstaller.py:78-88 | the game folder is planned iff it exists; Proton data and shader cache iff flagged and existing |
| Uninstaller.PlannedArea | steam_uninstaller/uninstaller.py:67-90 | with a relative install directory and app id, each planned path lies beneath steamapps in the area its description names |
| Uninstaller.PlanSeparate | steam_uninstaller/uninstaller.py:67-90 | with a relative install directory and app id, no planned path contains another |
| Uninstaller.Disk.GetGamePaths | steam_uninstaller/uninstaller.py:67-90 | the appends build the plan, checked against the disk as it is now |
| Uninstaller.TotalSizeAppend | steam_uninstaller/uninstaller.py:95-108 | the estimate of two lists of games is the sum of their estimates |
| Uninstaller.TotalSizeReported | steam_uninstaller/uninstaller.py:93-108 | the estimate is never below the manifests' reported sizes |
| Uninstaller.Disk.CalculateTotalSize | steam_uninstaller/uninstaller.py:93-108 | the loop sums the reported sizes plus the measured compatdata and shadercache of the flagged games |
| Uninstaller.Removed | steam_uninstaller/uninstaller.py:143-146 | unlink removes the file; rmtree removes the directory and everything beneath it; every other entry is kept unchanged |
| Uninstaller.ResultOf | steam_uninstaller/uninstaller.py:151-182 | the result reports success iff nothing was raised, with the bytes counted so far |
| Uninstaller.ResultOfFault | steam_uninstaller/uninstaller.py:157-182 | a failed result has success false and an error prefixed "Permission denied: " or "OS error: " by the class of the exception, or the bare message |
| Uninstaller.FirstFault | steam_uninstaller/uninstaller.py:132-146 | the index of the first path that raises is within the plan and that path raises |
| Uninstaller.FirstFaultIsFirst | steam_uninstaller/uninstaller.py:132-146 | no path before that index raises |
| Uninstaller.RemovedFrame | steam_uninstaller/uninstaller.py:143-146 | removing a path leaves any entry neither above nor beneath it, and its measured size, unchanged |
| Uninstaller.FirstFaultFrame | steam_uninstaller/uninstaller.py:132-146 | which planned path raises, and what, depends only on the planned entries |
| Uninstaller.MeasuredFrame | steam_uninstaller/uninstaller.py:136-148 | the counted bytes depend only on the planned paths' measured sizes |
| Uninstaller.ClearedStep | steam_uninstaller/uninstaller.py:142-146 | removing the first planned path, then clearing the rest, clears the whole plan |
| Uninstaller.ClearedSkip | steam_uninstaller/uninstaller.py:133-134 | a planned path that is missing clears nothing |
| Uninstaller.ProcessStep | steam_uninstaller/uninstaller.py:132-148 | a path that does not raise is counted, and the rest of the plan runs on what its removal leaves |
| Uninstaller.ProcessStops | steam_uninstaller/uninstaller.py:131-182 | over separate paths the loop ends with the exception of the first path that raises, or none |
| Uninstaller.ProcessCounts | steam_uninstaller/uninstaller.py:132-148 | the bytes counted are the measured sizes of exactly the paths before the first that raises |
| Uninstaller.ProcessClears | steam_uninstaller/uninstaller.py:132-148 | a live run removes exactly the planned files and directory subtrees before the first that raises, and nothing else |
| Uninstaller.ProcessDryRun | steam_uninstaller/uninstaller.py:142 | a dry run leaves the disk unchanged |
| Uninstaller.FirstFaultDryLive | steam_uninstaller/uninstaller.py:132-148 | when no planned removal raises, a dry run stops at the same path, with the same exception, as a live one |
| Uninstaller.DryLive | steam_uninstaller/uninstaller.py:132-148 | when no planned path contains another and no planned removal raises, a dry run counts the same bytes and ends with the same exception as the live run on the same disk |
| Uninstaller.DryLiveGame | steam_uninstaller/uninstaller.py:111-182 | `uninstall_game` with `dry_run` returns the result the live call would, for a game with a relative install directory and app id whose removals do not raise |
| Uninstaller.ProcessKeeps | steam_uninstaller/uninstaller.py:132-146 | an entry beneath no planned path survives the run unchanged |
| Uninstaller.FirstFaultNone | steam_uninstaller/uninstaller.py:131-155 | with no exceptions injected, no planned path raises |
| Uninstaller.EmptyInstallDirRemovesCommon | steam_uninstaller/uninstaller.py:128-148 | as written, with an empty install directory the game folder is steamapps/common, and a live uninstall removes it and every game beneath it |
| Uninstaller.PlannedIsGamePath | steam_uninstaller/uninstaller.py:67-90 | each planned path is the manifest, the game folder, the Proton data or the shader cache |
| Uninstaller.ConfinedKeepsAreas | steam_uninstaller/uninstaller.py:128-148 | for a confined game, steamapps/common, compatdata and shadercache survive its uninstall unchanged, whatever is raised |
| Uninstaller.Disk.UninstallGame | steam_uninstaller/uninstaller.py:111-182 | the loop leaves the disk and returns the result that running the plan gives, skipping missing paths and stopping at the first exception |
| Uninstaller.BatchStep | steam_uninstaller/uninstaller.py:204-209 | the first game is uninstalled on the disk as it is, the rest on what it leaves |
| Uninstaller.BatchAdvance | steam_uninstaller/uninstaller.py:208-209 | appending one game's result advances the batch by that game |
| Uninstaller.BatchResults | steam_uninstaller/uninstaller.py:201-209 | there is one result per game, in input order |
| Uninstaller.BatchDryRun | steam_uninstaller/uninstaller.py:185-209 | a dry batch leaves the disk unchanged |
| Uninstaller.BatchTwiceDryLive | steam_uninstaller/uninstaller.py:185-209 | a game listed twice is counted twice by a dry batch and once by a live batch on the same disk |
| Uninstaller.CountSuccessful | steam_uninstaller/uninstaller.py:211 | the count is the number of results that are successes |
| Uninstaller.BytesFreedAppend | steam_uninstaller/uninstaller.py:213 | the bytes freed by two runs of results add up |
| Uninstaller.Summarize | steam_uninstaller/uninstaller.py:211-221 | `total_games` is the number of results; `successful` counts the successes and `failed` the failures; `total_bytes_freed` is the sum of the bytes freed; the results are kept as given |
| Uninstaller.AllSuccessfulIff | steam_uninstaller/uninstaller.py:34-36 | `all_successful` holds iff every result is a success |
| Uninstaller.Disk.UninstallGames | steam_uninstaller/uninstaller.py:185-221 | the loop leaves the disk and the summary that the batch gives; the callback sees (i, total, games[i]) for each game, in order |

## Findings

| source | as written | input that shows it | evidently intended | confidence | as-written member | corrected member |
|---|---|---|---|---|---|---|
| steam_uninstaller/steam.py:230-259 | a manifest whose "installdir" is missing, empty, absolute or made of ".." is listed, with the game folder computed from that value | an AppState with "appid", "name" and "SizeOnDisk" but no "installdir", in a library whose steamapps/common exists | skip the manifest, like one whose game folder is missing | not executed | Steam.MissingInstallDirAsWritten | Steam.ListedGameConfined |
| steam_uninstaller/uninstaller.py:79-80 | the game folder of such a game is steamapps/common itself, and `shutil.rmtree` removes it | uninstalling that game with dry_run false | remove only the game's own folder | not executed | Uninstaller.EmptyInstallDirRemovesCommon | Uninstaller.ConfinedKeepsAreas |

`get_installed_games` and `get_all_installed_games` are modelled as the code
is written: they list every manifest through `Steam.ManifestOutcomeAsWritten`.
The corrected listing, `Steam.ManifestOutcome`, skips a manifest whose
install directory or app id is absolute, empty or contains "..".
`Steam.ConfinedListing` relates the two listings manifest by manifest.

## Left out

- Text.Lower: maps only ASCII letters; Python's Unicode case mapping is not modelled.
- Text.ParseInt: accepts ASCII whitespace (including the separators \x1c to \x1f), an optional sign and ASCII digits; Python's underscores, non-ASCII whitespace and non-ASCII digits are not modelled.
- Steam.SortByName: proves sorted and a permutation, but not the stability of Python's sort among equal names.
- Uninstaller.ProcessStops, Uninstaller.ProcessCounts, Uninstaller.ProcessClears: proved only for plans in which no path contains another. `Uninstaller.PlanSeparate` gives this for any game with a relative install directory and app id.
- Paths: ".." is kept as a plain component and symbolic links do not exist, because the filesystem is a map of paths.
- Paths.PathOf: a relative "path" in libraryfolders.vdf is not resolved against the working directory.
- Exceptions from `exists()`, `is_file()`, `is_dir()` and the `rglob()` walk are not modelled. Only `read_text()`, `stat()` of a file, `unlink()` and `rmtree()` can fail.
- Uninstaller.StatFaults: `stat()` raises only an `OSError` (PermissionError included). Another exception from `stat()` would escape `get_dir_size`; that case is not modelled.
- A dry batch reports the bytes a live batch would free only game by game (`Uninstaller.DryLiveGame`). Across games the totals can differ: the live run removes what an earlier game shared with a later one, and the dry run does not. A game listed twice is the plainest case (`Uninstaller.BatchTwiceDryLive`), since library paths are not de-duplicated (steam_uninstaller/steam.py:144-148).
- `rmtree` is all-or-nothing: a failing removal removes nothing, and faults are attached to the planned paths.
- The progress callback is modelled as the sequence of its calls (`Uninstaller.Progress`), not as a function that runs code.
- Logging calls are not modelled: they have no effect on results.
- `is_steam_running` is not modelled: it enumerates processes through psutil.
- `format_size`, `format_playtime` and `format_bytes_freed` are not modelled: they are floating-point string formatting.
- The terminal UI (`tui.py`) and the command line (`main.py`) are not part of this model.
- `Path.home()` is a parameter (`home`) of the catalog, and the disk is a value, not the real filesystem.
