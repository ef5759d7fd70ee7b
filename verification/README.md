# Cinema algorithm proofs

Dafny models of the algorithms and protocols in this repository whose correctness is not visible from one
body, with proofs of what they promise. `dafny verify dfyconfig.toml` checks the whole project.

| area | modules | what is proved |
|---|---|---|
| Change impact (`validation/runner.py`) | `Text`, `Glob`, `Regex`, `GlobCompiler`, `Graph`, `Catalog`, `Impact`, `DependencyCycles` | globs compile to regular expressions of the same meaning; brace expansion is a product; impact is reachability; a cycle is reported exactly when there is one |
| CI scope (`validation/ci_scope.py`) | `CiScope`, `CiTables` | each surface follows its own trees and files; a larger diff never drops a surface; two diffs enable together what they enable apart |
| Build stamp (`crates/plurxd/build.rs`) | `CivilDate` | the date formula is the day-by-day Gregorian calendar; stamps increase with time, and their text does until the year 10000 |
| Artwork cache (`AuthImage.swift`) | `DownloadCoordinator`, `DiskCache`, `ArtworkRefresh`, `ArtworkRecency` | one live download per key in every interleaving; the index, the files and the byte total agree; over whole runs what is returned is what was last written and what is evicted was used least recently; after a clear the disk keeps nothing of a refresh that read the generation before it, and exactly which stored bytes answer an older request |
| Offline books (`OfflineBookManager.swift`, `OfflineBookCatalog.swift`, `OfflineCatalog.swift`) | `Characters`, `Utf8Scalars`, `PublicationPath`, `PublicationLinks`, `PublicationLevels`, `LocalPath`, `OfflineBookModels`, `OfflineBookFiles`, `OfflineBookCatalog`, `BookDownload`, `CatalogIndex`, `ReadingProgress` | resource paths are joined from plain names, and exactly which of them the file system follows out of the book; a published book holds a file for every link; a crash between any two steps is repaired; no newer reading position is lost |
| Documentation sweep (`validation/doc_versions.py`) | `SpanFinder` | exactly the marked spans are cut out, every other character stays |
| Player teardown (`PlayerView.swift`) | `PlayerLifecycle` | cleanup once and first, completions once and in order, under reentrant calls |
| Image subtitles (`PGSOverlay.swift`) | `PgsOverlay` | validation, an exact overflow-free decode budget, placement inside the destination |
| History audit (`validation/history.py`) | `HistoryAudit` | no error means a full, non-overlapping cover with the evidence that each commit's class asks for |
| Benchmark report (`scripts/cinema_plex_bench/reporting.py`) | `Percentile`, `BenchmarkSummary` | type-7 percentiles do not depend on order, stay within the samples and are monotone; the groups share out the rows |

`Options`, `Collections` and `Arithmetic` hold what several of them use: missing values, sets of elements, sums over maps,
division.

Actors and objects are classes whose methods are proved against functions of the state; their interleavings
are state machines over those functions, with each actor method atomic between awaits. A crash is a run that
stops between two steps. Regular expressions are syntax trees with the matching relation of Python's `re`
(`.` excludes newline, `$` also matches before a final newline). Publication paths are UTF-8 bytes,
split and searched by the Characters (grapheme clusters) of Swift: `Characters.MARKS` and `Characters.PREPENDED` stand
for any sets of scalars that attach to a neighbour. Percentiles and geometry use real numbers.

## Where the code falls short of its intent

Each of these is stated as lemmas: what holds, the condition for it, and an input for which it fails.

- **Empty diff.** Adding paths to a *non-empty* diff never drops a surface (`CiScope.ScopeMonotone`). The empty
  diff asks for the cargo gate, so it is below a larger diff exactly when that diff needs the gate too, or is
  outside the documentation lane and hits a full-CI path (`CiScope.EmptyDiffMonotone`); the licence text alone is a
  diff for which it is not (`CiScope.EmptyDiffIsNotLeast`).
- **Newlines in paths.** The compiled regular expression and the glob agree on a path, for every pattern, exactly
  when the path has no newline (`GlobCompiler.NewlineBreaksMeaning`), and so does `matches`
  (`GlobCompiler.NewlineBreaksMatches`). The pattern `a` accepts `a` followed by a newline (`GlobCompiler.NewlineExample`).
- **Smallest time stamp.** `newestPending` never returns a row whose stamp is the smallest integer, because the
  comparison with a missing entry is strict: such an edition is sent exactly when another row of it has a greater
  stamp (`ReadingProgress.SmallestStampIsSkipped`).
- **Repeated stamps.** The acknowledgement of a sent position compares only stamp and locator. A position is
  lost exactly when the last accepted `record` during the send repeated both and changed the progression or the
  completed flag (`ReadingProgress.LossCondition`, witness `ReadingProgress.RepeatedStampLoses`).
- **Two sets of limits.** A book row keeps the limits of the first opening while the files are checked against
  the second one. A published book survives a crash exactly when its files fit the saved limits too
  (`BookDownload.CrashRecovery`), in particular when both openings gave the same ones (`BookDownload.PublishedIsKept`).
  `BookDownload.PublishedCanBeLost` is a run of eight steps after which a published book is lost.
- **Corrupt index.** Saving the book index is crash-safe exactly unless it starts from an undecodable index, the rows
  came from the backup, which the copy of that index replaces, and the rows to be saved are not empty
  (`CatalogIndex.SaveIsCrashSafe`, witness `CatalogIndex.CorruptIndexLosesBackup`).
- **Five-digit years.** Build stamps always differ (`CivilDate.BuiltAtDistinct`). Sorting their text sorts all stamps up
  to a time exactly when that time is before the year 10000, second 253402300800 (`CivilDate.TextFollowsTimeUntil`); the
  stamps of that second and of the one before it are in the wrong order (`CivilDate.FifthDigitBreaksOrder`).
- **Late generation read.** A refresh signs its request before it reads the cache generation. Accepted bytes answer a
  request signed after the last clear exactly when no clear fell between those two steps
  (`ArtworkRefresh.StoredBytesAreCurrentIff`); `ArtworkRefresh.LateReaderStoresOldBytes` is a run in which one did.
- **Hidden separators.** A `/` that forms one Character with a combining mark or a prepended scalar next to it escapes the
  checks on a decoded part, but the file system steps at it. A returned path leaves its directory exactly when a decoded
  part that begins with `..` and such a `/` is joined where the parts before it lead no deeper than the directory, and
  each such part leads up by one level at most (`PublicationLevels.LeavesDirectoryIff`). With marks alone that is the
  first part, so one level in all (`PublicationLevels.LeavesByOneLevel`); with prepended scalars it can be more
  (`PublicationLevels.TwoLevelsUp`). For every mark, a percent-encoded `../` followed by the mark is such a link
  (`PublicationLevels.HiddenSeparatorLeaves`).

## Model

| member | source | states |
|---|---|---|
| Glob.NormalizePath | validation/runner.py:231-235 | the loop computes the normal form: forward slashes, no leading `./`, no trailing slash |
| Glob.NormalizedForm | validation/runner.py:231-235 | normal forms are exactly the fixed points, so normalising twice changes nothing |
| Glob.BackslashIsSlash | validation/runner.py:231-235 | a backslash in a path is a slash |
| Glob.DotSlashDropped | validation/runner.py:231-235 | a leading `./` changes nothing |
| Glob.TrailingSlashDropped | validation/runner.py:231-235 | a trailing slash changes nothing, except that after a path that normalises to a lone dot it leaves nothing |
| Glob.ExpandBraces | validation/runner.py:183-196 | the recursive expansion terminates, nested and unbalanced braces included, and lists the expansion of each choice in order |
| Glob.ExpandedIsFinal | validation/runner.py:183-196 | no result has a `}` after a `{` |
| Glob.ExpandedIsProduct | validation/runner.py:183-196 | without nested braces the results are the product of the choices, in lexicographic order of the picks |
| Regex.AlternationMatches | validation/runner.py:223-228 | the joined alternatives match exactly when one of them does |
| Regex.OptionalDirectories | validation/runner.py:207-209 | the fragment for `**/` consumes nothing, or a newline-free stretch ending in a slash |
| Regex.StarNotSlash | validation/runner.py:213 | the fragment for `*` consumes exactly the slash-free stretches |
| GlobCompiler.GlobFragment | validation/runner.py:199-220 | the index loop emits one piece per token, between the anchors |
| GlobCompiler.PiecesSound | validation/runner.py:199-220 | whatever the compiled pieces match from any point, the rest of the glob denotes |
| GlobCompiler.PiecesComplete | validation/runner.py:199-220 | whatever the rest of the glob denotes, the compiled pieces match |
| GlobCompiler.FragmentMeaning | validation/runner.py:199-220 | on newline-free paths the compiled fragment accepts exactly the paths the direct recursive matcher accepts |
| GlobCompiler.NewlineBreaksMeaning | validation/runner.py:199-220 | fragment and glob agree on a path for every pattern exactly when the path has no newline |
| GlobCompiler.NewlineExample | validation/runner.py:219 | the pattern `a` accepts `a` and a final newline, which the glob does not denote |
| GlobCompiler.NewlineBreaksMatches | validation/runner.py:223-240 | `matches` agrees with the meaning of its patterns, whatever they are, exactly when the path has no newline |
| GlobCompiler.MatchesMeaning | validation/runner.py:223-240 | a path matches patterns exactly when some brace alternative of some normalised pattern denotes the normalised path |
| GlobCompiler.LiteralMatchesItself | validation/runner.py:238-244 | a pattern without markers matches its own normalised path and no other |
| GlobCompiler.ComponentMeaning | validation/runner.py:199-225 | patterns whose `**` are whole components match component by component: `**` is any number of whole directories, `*` and `?` stay inside one name |
| Impact.BuildConsumers | validation/runner.py:472-475 | the reverse edge lists hold exactly the dependencies of the catalog |
| Impact.ImpactReasons.ExpandConsumers | validation/runner.py:463-486 | terminates on cyclic graphs; selects the least set closed under consumers, keeps the first reasons first, and records `consumer:p` for c, once, exactly when p is selected and c depends on p |
| Impact.ImpactIsReachability | validation/runner.py:463-486 | a point is selected exactly when a chain of dependencies leads from it to an initial point |
| Graph.LeastClosedIsAffected | validation/runner.py:463-486 | the least closed set is the set of transitively affected points |
| DependencyCycles.CycleSearch.Visit | validation/runner.py:390-403 | the recursion ends, `visiting` is the set of the trail, every known point is finished once, and reports are real |
| DependencyCycles.FindCycles | validation/runner.py:390-406 | the search finishes every known point once, reports something exactly when the known dependencies have a cycle, every reported trail contains one, and without the edges that close the reported trails there is no cycle left |
| DependencyCycles.KnownEdgesMean | validation/runner.py:393-402 | the known dependencies are those of the last point with an identifier on points that are listed |
| DependencyCycles.ReportHasCycle | validation/runner.py:394-396 | a trail whose last point occurs earlier on it closes a cycle |
| DependencyCycles.OrderedIsAcyclic | validation/runner.py:402-403 | an order of finished points with dependencies first rules out every cycle |
| CiScope.SelectPoints | validation/runner.py:426-442 | selects, in catalog order, exactly the triggered points and everything that transitively depends on them, with reasons |
| CiScope.SelectedChecks | validation/runner.py:489-503 | an unknown profile is the error; otherwise exactly the catalog's checks in the profile that a selected point lists or that always run |
| CiScope.WantedInOrder | validation/runner.py:499-503 | the checks keep the catalog's order and repetition |
| CiScope.ScopeForPaths | validation/ci_scope.py:185-210 | the imperative selection refines the scope as a function of reachability and of the path tables, unknown profile included |
| CiScope.LanesMean | validation/ci_scope.py:185-191 | a non-empty diff of nothing but documents outside the shipped trees enables `docs_only` alone; another one with a full-CI path enables all the rest |
| CiScope.SurfacesMean | validation/ci_scope.py:193-210 | elsewhere each surface is enabled exactly when a path matches its own table, and the catalog's keys exactly when their check or point is selected |
| CiTables.DiffSurfaces | validation/ci_scope.py:44-149 | with the real tables, each surface is enabled exactly by paths below the listed trees, the listed files and the listed kinds of names |
| CiTables.ClientDiff | validation/ci_scope.py:83-126 | a diff below one client enables that client and neither the other one nor the cargo gate |
| CiTables.CrateDiff | validation/ci_scope.py:128-149 | a diff below `crates/` enables the cargo gate, the release builds and the container, and no client |
| CiTables.TreeMeans | validation/runner.py:199-220 | a plain directory followed by `/**` matches exactly the paths below it |
| CiTables.AnywhereMeans | validation/runner.py:199-220 | `**/*` followed by a plain end matches exactly the paths with that end |
| CiScope.SelectionMonotone | validation/runner.py:426-442 | more paths select no fewer points |
| CiScope.SelectionUnion | validation/runner.py:426-442 | two diffs select together exactly what they select apart |
| CiScope.RoutedMonotone | validation/ci_scope.py:193-210 | outside the lanes every surface is monotone in the paths, through point closure and check selection |
| CiScope.ScopeMonotone | validation/ci_scope.py:160-210 | for a non-empty diff, adding paths keeps every enabled key but `docs_only`, through the documentation lane and the full-CI override |
| CiScope.EmptyDiffMonotone | validation/ci_scope.py:170-210 | exactly when the empty diff's scope lies within a larger diff's |
| CiScope.EmptyDiffIsNotLeast | validation/ci_scope.py:160-210 | with the real path tables, the scope of the empty diff is not within the scope of the diff `LICENSE` |
| CiScope.ScopeUnion | validation/ci_scope.py:185-210 | outside the documentation lane each key is enabled for two diffs together exactly when it is for one of them |
| CivilDate.CivilSteps | crates/plurxd/build.rs:60-67 | for every day count, negative ones included, the result is a valid Gregorian date and the next day's result is its successor |
| CivilDate.CivilEpoch | crates/plurxd/build.rs:60-67 | day 0 is 1970-01-01 |
| CivilDate.CivilIsNaive | crates/plurxd/build.rs:60-67 | the formula is the calendar counted day by day from the epoch, in both directions |
| CivilDate.CivilIncreases | crates/plurxd/build.rs:60-67 | later days have later dates, so no two days share one |
| CivilDate.EveryDateReached | crates/plurxd/build.rs:60-67 | every valid date is the date of some day |
| CivilDate.YearOfEraAt | crates/plurxd/build.rs:63 | the divisions cancel the leap days exactly at every day of the 400-year era |
| CivilDate.StampIncreases | crates/plurxd/build.rs:54-67 | the full year-to-second stamp is strictly increasing in seconds |
| CivilDate.StampCounts | crates/plurxd/build.rs:54-59 | the stamp's date is the calendar's for whole days, and its hours, minutes and seconds are the rest |
| CivilDate.TextReads | crates/plurxd/build.rs:68 | the text has the separators of `YYYY-MM-DDTHH:MM:SSZ` and its digits read as the fields of the stamp |
| CivilDate.BuiltAtDistinct | crates/plurxd/build.rs:49-68 | at any two different seconds the printed stamps differ |
| CivilDate.TextFollowsTimeUntil | crates/plurxd/build.rs:49-68 | all stamps up to a time sort as text in the order of time exactly when the time is before the year 10000 |
| CivilDate.FifthDigitBreaksOrder | crates/plurxd/build.rs:68 | the first stamp of the year 10000 sorts before the last one of 9999 |
| DownloadCoordinator.AuthImageDownloadCoordinator.BeginDownload | clients/apple/Sources/AuthImage.swift:360-381 | a caller joins the flight for its key or starts one |
| DownloadCoordinator.AuthImageDownloadCoordinator.FinishWaiter | clients/apple/Sources/AuthImage.swift:413-429 | removes one waiter from its own flight, drops the flight with its last waiter, and cancels its download only then and only if asked |
| DownloadCoordinator.AuthImageDownloadCoordinator.CancelAll | clients/apple/Sources/AuthImage.swift:403-407 | empties the map and cancels every flight in it |
| DownloadCoordinator.AuthImageDownloadCoordinator.WaiterCount | clients/apple/Sources/AuthImage.swift:409-411 | counts the waiters of the key's flight; where flights have waiters, zero means that there is no flight |
| DownloadCoordinator.StepKeepsInv | clients/apple/Sources/AuthImage.swift:351-430 | each step of the system keeps: flights have waiters and uncancelled tasks, live tasks are in the map, suspended callers are registered, no waiter is removed twice |
| DownloadCoordinator.RunsKeepInv | clients/apple/Sources/AuthImage.swift:351-430 | that invariant holds at every point of every interleaving |
| DownloadCoordinator.OneLiveTaskPerKey | clients/apple/Sources/AuthImage.swift:351-430 | at most one task per key is neither finished nor cancelled, and it is the one in the map; a caller of an uncancelled flight is removed exactly once, when it stops waiting |
| DownloadCoordinator.OthersCannotStrand | clients/apple/Sources/AuthImage.swift:383-429 | a suspended caller keeps its flight whatever others do, unless the flight was cancelled |
| DownloadCoordinator.CancelNeedsLastWaiter | clients/apple/Sources/AuthImage.swift:383-429 | only `cancelAll` cancels a flight somebody still waits for |
| DownloadCoordinator.CancelledExactly | clients/apple/Sources/AuthImage.swift:383-429 | a step cancels a flight exactly when it is `cancelAll`, or the clean-up of a cancelled caller that was the only waiter |
| DownloadCoordinator.LateFinishIsHarmless | clients/apple/Sources/AuthImage.swift:413-429 | a late clean-up from an old flight changes no newer flight for the key |
| DownloadCoordinator.NothingLeaks | clients/apple/Sources/AuthImage.swift:351-430 | when no caller is suspended the map is empty and every task is finished or cancelled |
| DiskCache.AuthImageDiskCache.constructor | clients/apple/Sources/AuthImage.swift:465-488 | a launch ends in a consistent cache within its budget, pruned from the inventory of the directory |
| DiskCache.AuthImageDiskCache.ScanInventory | clients/apple/Sources/AuthImage.swift:615-690 | keeps exactly the images with decodable, fresh enough metadata and deletes all other files |
| DiskCache.InventoryIsFresh | clients/apple/Sources/AuthImage.swift:615-690 | those are the images that a look-up at launch would return, with the access times of their files |
| DiskCache.AuthImageDiskCache.Lookup | clients/apple/Sources/AuthImage.swift:490-515 | a fresh readable entry is returned and only its access clock moves; any other is removed |
| DiskCache.AuthImageDiskCache.Store | clients/apple/Sources/AuthImage.swift:520-564 | another generation is refused unchanged; a failed write removes the entry; a write replaces it and prunes |
| DiskCache.AuthImageDiskCache.RemoveToken | clients/apple/Sources/AuthImage.swift:607-613 | index, files and total lose exactly one entry; the clamp at zero is never needed |
| DiskCache.AuthImageDiskCache.RemoveAll | clients/apple/Sources/AuthImage.swift:574-580 | empties the cache and moves the generation |
| DiskCache.AuthImageDiskCache.Prune | clients/apple/Sources/AuthImage.swift:582-590 | removes the shortest prefix in last-access order that restores the limit |
| DiskCache.SortedByAccess | clients/apple/Sources/AuthImage.swift:584-586 | the removal order lists every entry once, least recently accessed first |
| DiskCache.PrunedIsLeastRecent | clients/apple/Sources/AuthImage.swift:582-590 | what goes was accessed no later than what stays, and nothing goes without need |
| DiskCache.NewestSurvives | clients/apple/Sources/AuthImage.swift:582-590 | an entry that fits alone and is accessed strictly last survives |
| DiskCache.BytesUpdated | clients/apple/Sources/AuthImage.swift:547-557 | the incremental total after a write is the sum over the index |
| ArtworkRefresh.StepKeepsInv | clients/apple/Sources/AuthImage.swift:238-303 | signing, reading the generation, downloading, storing, look-ups, removals and clears keep the cache valid and every read and entry dated against the last clear |
| ArtworkRefresh.RunsKeepInv | clients/apple/Sources/AuthImage.swift:224-303 | in every interleaving that invariant holds |
| ArtworkRefresh.EntriesOutliveNoClear | clients/apple/Sources/AuthImage.swift:238-303 | after a clear every disk entry was written by a refresh that read the generation since |
| ArtworkRefresh.StoreAcceptedIffNoClear | clients/apple/Sources/AuthImage.swift:520-580 | a store is accepted exactly when no clear happened since its refresh read the generation; refused, it changes nothing |
| ArtworkRefresh.StoredBytesAreCurrentIff | clients/apple/Sources/AuthImage.swift:240-285 | the bytes of an accepted store answer a request signed after every clear exactly when none fell between signing a request and the storing refresh's generation read |
| ArtworkRefresh.LateReaderStoresOldBytes | clients/apple/Sources/AuthImage.swift:240-285 | a run in which a clear between signing and reading goes unseen |
| ArtworkRecency.RunsAreTraced | clients/apple/Sources/AuthImage.swift:490-564 | over every run each entry holds what was last written and carries the time of its last write or return |
| ArtworkRecency.ReturnsLastWritten | clients/apple/Sources/AuthImage.swift:490-515 | a look-up returns what the last write stored, exactly when the entry is there, readable and written recently enough |
| ArtworkRecency.EvictedIsLeastRecentlyUsed | clients/apple/Sources/AuthImage.swift:520-590 | whatever a store evicts was last written or returned no later than what it keeps |
| ArtworkRecency.MostRecentlyUsedSurvives | clients/apple/Sources/AuthImage.swift:520-590 | an entry that fits alone and was written or returned strictly last survives a store |
| PublicationPath.SafePublicationPath | clients/apple/Sources/OfflineBookManager.swift:384-404 | the push-and-pop loop computes the walk over the decoded parts |
| PublicationPath.WalkMeaning | clients/apple/Sources/OfflineBookManager.swift:384-404 | from any state of the loop, it fails exactly when a part is forbidden or some prefix steps above the root |
| PublicationPath.SafePathStaysInside | clients/apple/Sources/OfflineBookManager.swift:384-404 | a link is accepted exactly when its parts never step above the root, none is forbidden and something is named; the result joins plain names and splits into plain names |
| PublicationLinks.FragmentIgnored | clients/apple/Sources/OfflineBookManager.swift:385 | a `#` that is a Character, and what follows it, do not change what a link names |
| PublicationLinks.AsciiFragmentIgnored | clients/apple/Sources/OfflineBookManager.swift:385 | in ASCII links that is the first `#` |
| PublicationLinks.HashOnlyDecoded | clients/apple/Sources/OfflineBookManager.swift:385-388 | the path of an ASCII link holds a `#` only if the link holds a `%23` |
| PublicationLinks.NamesInOrder | clients/apple/Sources/OfflineBookManager.swift:386-403 | a link of names alone gives their decodings in order |
| PublicationLinks.StepUpCancels | clients/apple/Sources/OfflineBookManager.swift:390-392 | a `..` undoes the name right before it |
| PublicationLinks.OnePart | clients/apple/Sources/OfflineBookManager.swift:384-404 | an ASCII link of one part without escapes gives itself, unless it is a dot step or holds a backslash, a colon or a control character |
| PublicationLevels.LeavesDirectoryIff | clients/apple/Sources/OfflineBookManager.swift:384-404 | a returned path leaves its directory, step by step of its `/`, exactly when a part beginning with `..` and a hidden `/` is joined at or above the directory's level; such parts lead up by one level each at most |
| PublicationLevels.LeavesByOneLevel | clients/apple/Sources/OfflineBookManager.swift:384-404 | where marks hide the separators, it does exactly when it begins with `../`, and never by more than one level |
| PublicationLevels.HiddenSeparatorLeaves | clients/apple/Sources/OfflineBookManager.swift:384-404 | a link that does, for every combining mark |
| PublicationLevels.TwoLevelsUp | clients/apple/Sources/OfflineBookManager.swift:384-404 | a link of two parts that leads two levels out, for every mark and prepended scalar |
| Characters.SplitAtHasNone | clients/apple/Sources/OfflineBookManager.swift:385-387 | no piece of a split by Characters holds the separator as a Character |
| Characters.JoinHas | clients/apple/Sources/OfflineBookManager.swift:403 | joined text holds another separator as a Character exactly when a joined part does |
| Characters.AsciiSplit | clients/apple/Sources/OfflineBookManager.swift:420-425 | ASCII text splits by Characters as it splits by bytes |
| PublicationPath.UnescapedEncoded | clients/apple/Sources/OfflineBookManager.swift:420-425 | percent decoding undoes percent encoding (section 2.1 of RFC 3986) |
| PublicationLinks.EscapeStandsFor | clients/apple/Sources/OfflineBookManager.swift:388 | an escape stands for a byte exactly when its two digits are the byte's, in either case |
| PublicationLinks.EncodedByte | clients/apple/Sources/OfflineBookManager.swift:420-425 | ASCII letters, digits and `-._~` are kept, and every other byte becomes an escape |
| Utf8Scalars.ValidIsEncoded | clients/apple/Sources/OfflineBookManager.swift:388 | decoded bytes are text exactly when they are the UTF-8 encoding of a list of scalars |
| Characters.CutAtAscii | clients/apple/Sources/OfflineBookManager.swift:384-388 | cutting UTF-8 text at a separator leaves UTF-8 text on both sides |
| PublicationPath.EncodedPathRoundTrip | clients/apple/Sources/OfflineBookManager.swift:384-425 | every path that can be returned, hidden separators included, is rebuilt from its percent-encoded form |
| LocalPath.StoredPathResolves | clients/apple/Sources/OfflineCatalog.swift:161-189 | a stored relative path leads back to the place it was taken from, in either spelling of the container |
| LocalPath.RelativePathIffDescendant | clients/apple/Sources/OfflineCatalog.swift:161-167 | exactly the proper descendants of the container have a relative path; a sibling with a longer name has none |
| LocalPath.SamePlace | clients/apple/Sources/OfflineCatalog.swift:161-189 | two locations are one place exactly when they are equal or differ in `/var` against `/private/var` |
| OfflineBookFiles.SavedInOrder | clients/apple/Sources/OfflineBookManager.swift:406-418 | in every order of the paths that puts a directory before what is below it, saving a resource removes no earlier one |
| OfflineBookFiles.SortedIsAncestorsFirst | clients/apple/Sources/OfflineBookManager.swift:417 | sorting strings with prefixes first is such an order |
| OfflineBookFiles.CheckRequiredFiles | clients/apple/Sources/OfflineBookCatalog.swift:193-232 | true exactly for a tree with the original, the same manifest and every resource within the limits |
| OfflineBookFiles.RequiredFilesMean | clients/apple/Sources/OfflineBookCatalog.swift:193-232 | what that is: every link of the reading order and of the resources is safe and has its file, within the limits on number, size and total |
| OfflineBookFiles.CheckSizes | clients/apple/Sources/OfflineBookCatalog.swift:219-231 | decides exactly whether count, sizes and total of the distinct paths fit the limits |
| OfflineBookFiles.CheckFiles | clients/apple/Sources/OfflineBookCatalog.swift:221-230 | the early-exit loop with its overflow check decides exactly whether every file is there and small enough and their total fits |
| OfflineBookFiles.ChosenGrows | clients/apple/Sources/OfflineBookCatalog.swift:221-230 | a running total over the limit stays over it |
| OfflineBookCatalog.OfflineBookCatalog.StagingDirectory | clients/apple/Sources/OfflineBookCatalog.swift:167-172 | replaces the staging directory by an empty one and touches nothing else |
| OfflineBookCatalog.OfflineBookCatalog.Publish | clients/apple/Sources/OfflineBookCatalog.swift:174-182 | one rename moves the whole staged tree to the book's directory |
| OfflineBookCatalog.OfflineBookCatalog.DiscardStaging | clients/apple/Sources/OfflineBookCatalog.swift:184-186 | removes the staging directory and nothing else |
| OfflineBookCatalog.OfflineBookCatalog.ReconcileLocalPublications | clients/apple/Sources/OfflineBookCatalog.swift:116-165 | rewrites every row as its own directory demands and removes exactly the abandoned staging directories, in any order of the rows |
| OfflineBookCatalog.PlacesDiffer | clients/apple/Sources/OfflineBookCatalog.swift:167-186 | no book's directory is another's, or anybody's staging directory |
| BookDownload.StepKeepsInv | clients/apple/Sources/OfflineBookManager.swift:117-231 | each step of a download keeps what its phase promises about row, staging directory and published directory |
| BookDownload.RunsKeepInv | clients/apple/Sources/OfflineBookManager.swift:117-231 | at every point where a run can crash, that holds |
| BookDownload.PublishedHasEveryLink | clients/apple/Sources/OfflineBookManager.swift:117-231 | after publication the book holds the original, the manifest and exactly the files that the links of the reading order and of the resources name, and a downloaded row leads to it |
| BookDownload.ResourceSaved | clients/apple/Sources/OfflineBookManager.swift:169-199 | one more resource extends the staged set in order and the running total stays the sum |
| BookDownload.ReconciliationIsExact | clients/apple/Sources/OfflineBookCatalog.swift:116-165 | no row stays intent or downloading; such rows and downloaded ones end as downloaded exactly when their tree is complete and has a path |
| BookDownload.ReconciledRowKeeps | clients/apple/Sources/OfflineBookCatalog.swift:116-165 | reconciliation changes nothing of a row but its state, path, cover and message, and sets those as the outcome demands |
| BookDownload.ReconciliationIsStable | clients/apple/Sources/OfflineBookCatalog.swift:116-165 | a second run changes neither rows nor files |
| BookDownload.CrashRecovery | clients/apple/Sources/OfflineBookManager.swift:117-231 | after a crash at any step the book is kept exactly when it had been published and fits the saved limits |
| BookDownload.PublishedIsKept | clients/apple/Sources/OfflineBookManager.swift:203-218 | a download that reached publication is kept when both openings gave the same limits |
| BookDownload.PublishedCanBeLost | clients/apple/Sources/OfflineBookManager.swift:117-231 | a run of the protocol, with stricter limits at the first opening, whose published book is lost by a crash |
| CatalogIndex.SaveIsCrashSafe | clients/apple/Sources/OfflineBookCatalog.swift:259-266 | for any rows, and whether the copy of the index succeeds, stops half-way or fails, a crash during a save loads the old rows or the new ones, exactly unless the index was undecodable while the backup held the rows and there are rows to save |
| CatalogIndex.CorruptIndexLosesBackup | clients/apple/Sources/OfflineBookCatalog.swift:259-266 | a disk and a save whose crash loads nothing |
| CatalogIndex.CrashInsideSave | clients/apple/Sources/OfflineBookCatalog.swift:259-266 | a crash in any state of the save that a download step makes leaves, after the launch, what a crash just before or just after the step leaves |
| CatalogIndex.SaveCompletes | clients/apple/Sources/OfflineBookCatalog.swift:31 | a finished save loads the saved rows, and every state of the next save loads those or the next ones |
| ReadingProgress.NewestPending | clients/apple/Sources/OfflineBookCatalog.swift:99-113 | for each edition with a pending position one row of greatest stamp, in ascending order, in any order of the rows |
| ReadingProgress.EditionsSent | clients/apple/Sources/OfflineBookCatalog.swift:99-113 | an edition is represented exactly when some pending row of it has a stamp above the smallest integer |
| ReadingProgress.ChosenMeans | clients/apple/Sources/OfflineBookCatalog.swift:99-113 | the rows chosen are pending rows of this user and server, one per item, file and revision, none older than another for the same |
| ReadingProgress.SmallestStampIsSkipped | clients/apple/Sources/OfflineBookCatalog.swift:108-110 | in any catalog a pending row stamped with the smallest integer is never returned, and its edition only for another row |
| ReadingProgress.AfterCallsIsLast | clients/apple/Sources/OfflineBookManager.swift:292-311 | after any `record` calls the row holds the last accepted one and is otherwise as before, and its stamp never decreased |
| ReadingProgress.ClampedIsNearest | clients/apple/Sources/OfflineBookManager.swift:303 | the recorded progression is the number from 0 to 1 nearest to the one given |
| ReadingProgress.NewerPositionStaysPending | clients/apple/Sources/OfflineBookManager.swift:334-341 | after an acknowledged send the row is pending exactly when the last position recorded meanwhile has another stamp or locator |
| ReadingProgress.LossCondition | clients/apple/Sources/OfflineBookManager.swift:334-341 | the exact condition under which an acknowledgement clears an unsent position |
| ReadingProgress.FreshStampsLoseNothing | clients/apple/Sources/OfflineBookManager.swift:334-341 | callers that never reuse a stamp lose nothing |
| ReadingProgress.RepeatedStampLoses | clients/apple/Sources/OfflineBookManager.swift:334-341 | a concrete call that loses a position |
| ReadingProgress.StepKeepsPositions | clients/apple/Sources/OfflineBookManager.swift:292-347 | no step lowers a stamp or clears a pending flag without the server having confirmed the row's stamp and locator |
| ReadingProgress.RunsKeepPositions | clients/apple/Sources/OfflineBookManager.swift:292-347 | the same over every interleaving of recording and syncing |
| SpanFinder.HistoricalSpanFinder.HandleStartTag | validation/doc_versions.py:90-95 | spoils every open span and pushes one, marked or not; the spans so far stay those of the specification |
| SpanFinder.HistoricalSpanFinder.HandleStartEndTag | validation/doc_versions.py:97-101 | a self-closing span pushes nothing and spoils every open one |
| SpanFinder.HistoricalSpanFinder.HandleEndTag | validation/doc_versions.py:103-108 | pops the innermost open span and emits it only if marked and unspoiled |
| SpanFinder.FindSpans | validation/doc_versions.py:70-108 | the emitted spans are exactly the marked start tags whose next span event is an end tag |
| SpanFinder.FoundSpansMean | validation/doc_versions.py:70-108 | they run from a span tag with a bare or empty `data-build-history` to an end tag that is the next span tag of the page |
| SpanFinder.FoundSpansInOrder | validation/doc_versions.py:111-117 | the spans are disjoint, non-empty, inside the document and in increasing order |
| SpanFinder.CurrentClaimsOnly | validation/doc_versions.py:111-125 | the page's own marked spans each become one space and every other character is kept in order |
| SpanFinder.CutSpans | validation/doc_versions.py:118-125 | the cut loop does so for any disjoint spans in order |
| PgsOverlay.Validated | clients/apple/Sources/PGSOverlay.swift:32-80 | the nested loops accept exactly the manifests whose cues follow one another, whose objects lie on the canvas and whose images have one size |
| PgsOverlay.HeaderMeans | clients/apple/Sources/PGSOverlay.swift:32-41 | the header rules, with the generation a SHA-256 digest in lower-case hexadecimal |
| PgsOverlay.ObjectPathMeans | clients/apple/Sources/PGSOverlay.swift:82-94 | an image path is the generation's object directory, such a digest and `.png` |
| PgsOverlay.OneActiveCue | clients/apple/Sources/PGSOverlay.swift:43-54 | in a validated manifest at most one cue is active at any time |
| PgsOverlay.WindowFitsDecodedBudget | clients/apple/Sources/PGSOverlay.swift:197-212 | the loop over all cues with its set of counted images computes the check on the flattened objects |
| PgsOverlay.BudgetIsExact | clients/apple/Sources/PGSOverlay.swift:197-212 | for any cues of a validated manifest nothing overflows and the check is true exactly when the distinct images' 4·w·h sum is within the budget |
| PgsOverlay.BudgetIgnoresOrder | clients/apple/Sources/PGSOverlay.swift:197-212 | the order and repetition of the cues do not matter |
| PgsOverlay.FrameInside | clients/apple/Sources/PGSOverlay.swift:214-235 | every object on its canvas is drawn inside the destination with its proportions kept |
| PgsOverlay.CanvasFitsInMiddle | clients/apple/Sources/PGSOverlay.swift:214-235 | the canvas is drawn as large as fits and in the middle of the destination |
| PgsOverlay.FrameOnCanvas | clients/apple/Sources/PGSOverlay.swift:214-235 | every object lies on the drawn canvas where it lies on the canvas |
| PlayerLifecycle.PlayerLifecycleCoordinator.Teardown | clients/apple/Sources/PlayerView.swift:396-400 | the cleanup runs on the first call only |
| PlayerLifecycle.PlayerLifecycleCoordinator.Finish | clients/apple/Sources/PlayerView.swift:402-411 | every caller's completion is queued; only the first call tears down |
| PlayerLifecycle.PlayerLifecycleCoordinator.EnqueueCompletion | clients/apple/Sources/PlayerView.swift:416-420 | a drain is scheduled exactly when none is waiting |
| PlayerLifecycle.PlayerLifecycleCoordinator.TakePending | clients/apple/Sources/PlayerView.swift:425-427 | a drain takes the whole queue and allows the next one |
| PlayerLifecycle.StepKeepsInv | clients/apple/Sources/PlayerView.swift:388-431 | reentrant calls, returns and drains keep the invariant on queue, stack and log |
| PlayerLifecycle.RunsKeepInv | clients/apple/Sources/PlayerView.swift:388-431 | the invariant holds at every point of every run |
| PlayerLifecycle.CleanupBeforeDelivery | clients/apple/Sources/PlayerView.swift:388-431 | cleanup starts at most once and has ended before any completion is delivered |
| PlayerLifecycle.DrainIffPending | clients/apple/Sources/PlayerView.swift:416-427 | one drain waits exactly when completions are pending |
| PlayerLifecycle.DeliveredInOrder | clients/apple/Sources/PlayerView.swift:416-430 | deliveries are a prefix of the enqueued completions, and all of them once nothing is left to do |
| HistoryAudit.Resolve | validation/history.py:408-414 | a prefix resolves exactly when one audited commit starts with it |
| HistoryAudit.HistoryAudit.AuditEntries | validation/history.py:390-438 | no error exactly when the ledger's headers, evidence and claims are clean; then each claim's commit maps to its entry |
| HistoryAudit.HistoryAudit.CheckClaims | validation/history.py:407-426 | the prefixes of an entry add no error exactly when each names a commit of its own and one of its points |
| HistoryAudit.EntryCleanMeans | validation/history.py:390-438 | what a clean entry is: commits, a reason, known points, and checks that are evidence for one of them or count everywhere |
| HistoryAudit.ClaimCleanMeans | validation/history.py:407-426 | what a clean claim is: its prefix starts exactly one audited commit, with a point of the entry unless the commit has none or the entry is ignored |
| HistoryAudit.HistoryAudit.CheckAnchor | validation/history.py:456-474 | one anchor prefix adds no error exactly when it names a new commit outside the ledger |
| HistoryAudit.HistoryAudit.CheckAnchors | validation/history.py:456-474 | so do all prefixes of an anchor |
| HistoryAudit.HistoryAudit.AuditFixes | validation/history.py:440-474 | no error exactly when identifiers, files and prefixes of the anchors are clean |
| HistoryAudit.HistoryAudit.AuditIssues | validation/history.py:487-514 | no error exactly when every corrective commit meets the evidence rule of its class |
| HistoryAudit.AuditHistory | validation/history.py:390-524 | no error exactly for clean input, and then mapped, ignored and anchored commits are disjoint and as many as the prefixes |
| HistoryAudit.CleanMeans | validation/history.py:476-514 | the evidence rule in full: with clean ledger and anchors there is no error exactly when the enforcement point resolves, client commits after it have an anchor, crate commits after it an anchor or a ledger prefix, and all others points and a direct test or a ledger prefix |
| HistoryAudit.FixFilesCleanMeans | validation/history.py:440-455 | the anchored texts of a fix occur in its source and test files |
| HistoryAudit.PrefixesHaveOwnCommits | validation/history.py:407-474 | in clean input every ledger or anchor prefix names exactly one audited commit, and no two the same |
| Percentile.SortSorts | scripts/cinema_plex_bench/reporting.py:32 | the sorted copy is ordered and has the same samples |
| Percentile.PercentileExists | scripts/cinema_plex_bench/reporting.py:32-34 | there is a percentile exactly when there is a finite sample |
| Percentile.PercentileInterpolates | scripts/cinema_plex_bench/reporting.py:37-43 | the k-th smallest of n samples stands at 100k/(n-1) percent, and the value moves linearly in between |
| Percentile.PercentileIgnoresOrder | scripts/cinema_plex_bench/reporting.py:30-43 | permuting the samples changes nothing |
| Percentile.PercentileBetweenExtremes | scripts/cinema_plex_bench/reporting.py:30-43 | the value lies between the least and the greatest sample and reaches them at 0 and 100 percent |
| Percentile.PercentileMonotone | scripts/cinema_plex_bench/reporting.py:30-43 | a higher percent never gives a lower value |
| BenchmarkSummary.Summarize | scripts/cinema_plex_bench/reporting.py:80-116 | each workload and server gets one group, computed from exactly its own rows in their order |
| BenchmarkSummary.GroupsPartition | scripts/cinema_plex_bench/reporting.py:81-83 | the sizes of the groups add up to the number of rows |
| BenchmarkSummary.GroupCounts | scripts/cinema_plex_bench/reporting.py:87-93 | a group counts its rows, those with a latency among its successes, and its failures |
| BenchmarkSummary.PercentilesOfHundredAndOne | scripts/cinema_plex_bench/reporting.py:105-109 | of 101 finite latencies, p50, p95 and p99 are the 51st, the 96th and the 100th |
| BenchmarkSummary.FiniteSuccess | scripts/cinema_plex_bench/reporting.py:88-92 | the samples of a group hold a finite value exactly when a row of it succeeded with one |
| BenchmarkSummary.SummaryOrdered | scripts/cinema_plex_bench/reporting.py:87-114 | p50 ≤ p95 ≤ p99 for every group with a successful finite row, and no percentile for any other |

## Left out

- GlobCompiler.FragmentMeaning: the rendering of the syntax tree as text and `re.escape` are not modelled.
- PublicationLevels.LeavesDirectoryIff: steps are counted from the path's text; symbolic links and directories that do not exist are not modelled.
- Percentile.PercentileInterpolates: percents from 0 to 100 over the reals; floating-point rounding is not modelled.
- PgsOverlay.FrameInside: exact real arithmetic in place of `CGFloat`.
- ArtworkRefresh.EntriesOutliveNoClear: the generation is an unbounded number in place of a wrapping `UInt64`, and the memory cache, whose clear is not atomic with the disk clear, is not modelled.
- DiskCache.AuthImageDiskCache.Store: a failed write is one flag; deletions and reads of attributes succeed; SHA-256 tokens are taken as distinct.
- BookDownload.StepKeepsInv: one download of a new book; `remove` and profile removal racing it, progress counters, phases as text, preferences and free-space checks are not modelled, and a save of the index that fails is not either.
- OfflineBookFiles.SavedInOrder: paths that are canonically equivalent as Unicode strings but differ in bytes count as different, and a path with hidden separators is kept under its own bytes, not under where the file system leads it.
- ReadingProgress.RunsKeepPositions: the server is the set of confirmed positions; a send that fails is a step that does not happen.
- SpanFinder.FindSpans: tokenising HTML and computing offsets from lines are not modelled; events arrive with increasing offsets.
- BenchmarkSummary.Summarize: the order of the groups, the runner and version fields, and the Cinema-to-Plex ratios are not modelled.
- CatalogIndex.SaveIsCrashSafe: replacing the index itself is one step, as the atomic write promises.
- HistoryAudit.AuditHistory: git, the ledger loaders and the discovery of corrective commits are inputs, and error texts are constructors.
- CiScope.ScopeForPaths: the catalog has unique identifiers and known dependencies, as the lint requires; `resolve_scope` and the command line are not modelled.
- Other lint rules of the catalog, named and full selection, check execution and reports: easy or input and output.
- Views, playback, image decoding, the memory image cache, HTTP sessions, `OfflineDownloadManager` and `AppModel`: frameworks or state outside these files.
- The Rust server beyond the build stamp.
