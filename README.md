# video-115-302: a verified model of its indexing and sync logic

The repository runs two services over a 115 cloud-drive account.

`video-115-302.py` keeps a process-wide index from video name to pick code. `load_videos` refreshes it one directory at a time. It pages through the directory's listing newest first, writes `name -> pickcode` for every entry newer than the directory's high-water mark (`MAX_MTIME_MAP`), and then raises the mark to the newest marker of the first page. `batch_load_videos` runs that sync over every configured directory id. The `index` route turns a name, or an explicit pick code, into a download link.

`updatedb.py` mirrors directory listings into SQLite:
- `iterdir` pages through one listing and checks that every page names the directory and reports a stable count.
- `diff_dir` merges the saved children, grouped by mtime and newest first, against the listing, and decides what to delete and what to write.
- `updatedb` drives a work list of directory ids, retrying busy ones and optionally descending into subdirectories.
- `update_dir_ancestors` recomputes paths and ancestor chains and rebases moved subtrees.
- `find_dangling_ids` finds rows whose parent chain leads out of the table.
- Smaller helpers: `cut_iter`, `json_array_head_replace`, `normalize_attr` and `normalize_path`.

`servedb.py` serves the database over WebDAV. It has
- `LRUDict`, a bounded insertion-order cache;
- the percent escaping of names in `.strm` links;
- the classification of a folder's children.

The model is one Dafny module per concern.
- `VideoIndex` (with `VideoIndexProps`) models `load_videos`. The remote listing is a finite map from `(offset, limit)` to a response. `Walk`/`SyncRun`/`Load` are the functional specification of one call. The class `Indexer` holds `MAX_MTIME_MAP` and `NAME_TO_PICKCODE` as fields and performs the call in place, with the paging loop proved against `Walk`. Markers are strings compared as Python compares `str` (`PyStr`).
- `DirListing` (with `DirListingProps`) models `iterdir`. `DirDiff` (with `DirDiffProps`) models `diff_dir`; a `Mode` switch gives both the code as written and the corrected merge.
- `WorkList` models the `updatedb` loop, `Dangling` models `find_dangling_ids`, and `DirAncestors` models `update_dir_ancestors`.
- `CutIter`, `HeadReplace` and `Normalize` model the helpers.
- `Lru` models `LRUDict`: a value-level specification plus the class `LruDict` that mutates `order` and `vals` in place.
- `StrmLinks` models the escaping and `strm_data`; `DavChildren` models `FolderResource.children`.
- `Common` holds shared vocabulary: `Option`, and `AssignAll`, a run of `d[k] = v`.

Each imperative operation of the source is a `method` whose `ensures` ties its result or new state to a specification function. The properties the code promises are lemmas about those functions.

## Model

| member | source | states |
|---|---|---|
| VideoIndex.Indexer.LoadVideos | video-115-302.py:80-115 | the outcome, the new mark map and the new name index are exactly those of the functional sync `SyncRun` on the stored mark (default "0") |
| VideoIndex.Indexer.IndexPage | video-115-302.py:99-105 | writes, in order, exactly the leading entries whose marker is above the mark and returns how many |
| VideoIndex.Indexer.FollowPages | video-115-302.py:96-115 | after an accepted first page: the outcome and the name writes are the walk's; the mark is set to the first page's newest marker exactly on the stops that return normally |
| VideoIndex.Indexer.PageLoop | video-115-302.py:98-113 | the `while True` paging loop stops for the reason the walk gives, after as many writes as the walk makes, with the name index updated by those writes |
| VideoIndex.Indexer.TakePage | video-115-302.py:99-113 | one turn: the page's newer entries are written; either the walk stops there, or the next page at `offset + len(data)` with limit 10000 passes its checks and the rest of the walk continues from it |
| VideoIndex.Indexer.Sweep | video-115-302.py:123-135 | one pass over `cids` produces the outcomes and the final dictionaries of `SweepSpec` |
| VideoIndex.Indexer.Route | video-115-302.py:162-166 | the route's decision is `Lookup` on the current name index |
| VideoIndex.Indexer.constructor | video-115-302.py:73-77 | starts with an empty mark map and the stored name index |
| VideoIndex.Lookup | video-115-302.py:162-166 | a non-empty pickcode bypasses the name map; otherwise a name missing from the map yields 404 and a present name resolves to its pickcode |
| VideoIndex.NewerCount | video-115-302.py:99-101 | the count of leading entries whose marker is above the mark: all before it are above, the one at it (if any) is at or below |
| VideoIndex.SweepSpec | video-115-302.py:127-133 | every directory is tried in order; only a directory whose sync never returns stops the sweep early, and it is the last one tried |
| VideoIndex.WalkStops | video-115-302.py:106-113 | every later request uses limit 10000; a walk never stops for a first-page reason; a failed, drifted or spinning stop comes after the request that caused it |
| VideoIndex.WalkOffsets | video-115-302.py:106-108 | the first later request starts right after the first page's entries, each next one right after the entries of the previous response |
| VideoIndexProps.SyncRequests | video-115-302.py:82-112 | the first request is (0, 10000) on a cold start (mark "0") and (0, 32) otherwise; later requests use limit 10000; each request, the first included, is followed by one at its offset plus the entries it received |
| VideoIndexProps.RejectedFirstPageChangesNothing | video-115-302.py:88-92 | a failed first response, one whose non-empty path names another directory (for cid other than "0"), or count 0 returns 0 and leaves both maps unchanged |
| VideoIndexProps.EmptyPathRaises | video-115-302.py:88-92 | a first response with state set and an empty path raises (for cid other than "0") and leaves both maps unchanged |
| VideoIndexProps.UpToDateChangesNothing | video-115-302.py:93-95 | when the newest marker is not above the stored mark, the call returns 0 and nothing changes |
| VideoIndexProps.MarkIsFirstPageNewest | video-115-302.py:94-114 | the mark is written exactly on the boundary, exhausted and drifted stops, its value is the first page's newest marker, and it is strictly above the old mark |
| VideoIndexProps.MarkNeverDecreases | video-115-302.py:94-114 | the synced directory's mark never goes down and only rises strictly; all other directories' marks are untouched |
| VideoIndexProps.WalkWritesNewerPrefix | video-115-302.py:98-113 | from any page on, the walk writes exactly the prefix of the served listing before the first entry at or below the mark |
| VideoIndexProps.SyncWritesNewerPrefix | video-115-302.py:98-114 | a whole call writes exactly the newer prefix of the served listing; every written entry is newer than the mark; the returned count equals the number of writes; the name index is updated by exactly those writes |
| VideoIndexProps.BoundaryExample | video-115-302.py:99-105 | markers [50, 40, 30, 20, 10] under mark 30 index two entries, return 2 and set the mark to 50 |
| VideoIndexProps.SecondSyncIsNoOp | video-115-302.py:93-95 | after a call that returned normally, a second call on an unchanged listing returns 0 and changes nothing |
| VideoIndexProps.SyncedNamesResolve | video-115-302.py:162-166 | a name the sync wrote (line 104) resolves, through the route's lookup, to the pickcode of its last write; any other name resolves as before the sync |
| VideoIndexProps.SweepMarksNeverDecrease | video-115-302.py:127-133 | no directory's mark goes down over a whole sweep |
| VideoIndexProps.SweepTriesEveryDirectory | video-115-302.py:127-133 | the i-th outcome is the sync of `cids[i]` on the state the earlier directories left, and a failure of one directory does not stop the sweep |
| PyStr.StrLeTotal | video-115-302.py:94 | Python string comparison of markers is total |
| PyStr.StrLeAntisym | video-115-302.py:94 | Python string comparison of markers is antisymmetric |
| PyStr.StrLeTrans | video-115-302.py:94 | Python string comparison of markers is transitive |
| PyStr.NineAfterTen | video-115-302.py:101 | markers compare as strings, so "9" sorts after "10" |
| CutIter.CutIterRun | updatedb.py:101-112 | the generator run to the end yields exactly `CutIterSpec`; step 0 raises |
| CutIter.CutEmpty | updatedb.py:108-112 | with a positive step nothing is yielded exactly when stop <= start |
| CutIter.CutTiles | updatedb.py:108-112 | the pieces tile [start, stop) contiguously, from start to stop |
| CutIter.CutSizesBounded | updatedb.py:108-112 | every size lies in 1..step |
| CutIter.CutCovers | updatedb.py:108-112 | the sizes sum to stop - start |
| CutIter.OneArgumentCutsFromZero | updatedb.py:106-107 | the one-argument form cuts [0, n) |
| CutIter.NegativeStepExample | updatedb.py:108-112 | a negative step counts down with negative sizes, and yields one piece when start < stop |
| HeadReplace.SliceEnd | updatedb.py:163 | where Python's `value[:stop]` ends: negative stops count from the end, out-of-range values clamp |
| HeadReplace.HeadReplace | updatedb.py:158-164 | the result is `repl` followed by `value` from the clamped stop on, stated by length and position |
| HeadReplace.ReplacesPrefix | updatedb.py:158-164 | replacing exactly an old prefix swaps it for the new one and keeps the rest |
| HeadReplace.DefaultOverwritesHead | updatedb.py:161-163 | the default stop is len(repl): the length is kept and the head is overwritten |
| HeadReplace.DefaultIdempotent | updatedb.py:161-163 | with the default stop, replacing twice is replacing once |
| HeadReplace.NegativeStopKeepsTail | updatedb.py:163 | a stop of -j keeps the last j elements after `repl` |
| HeadReplace.HeadReplaceExample | updatedb.py:158-164 | concrete cases of the slice assignment |
| Normalize.NormalizeAttr | updatedb.py:491-505 | raises (KeyError for a missing required key, ValueError or TypeError from `int()`) exactly when a key is missing or a conversion fails; a directory (no fid) takes id and parent through `int()` of cid and pid, a file through `int()` of fid and cid; an image exactly when a file has a truthy `u`; missing or zero size gives 0, missing sha gives ""; ctime and mtime are `int()` of tp and te, 0 when absent |
| Normalize.DirectoryIsNeverImage | updatedb.py:496-504 | a directory is never an image, whatever its `u` flag |
| Normalize.NormalizePath | updatedb.py:115-126 | "0", ".", ".." and "/" denote the root id 0; a breadcrumb trail's parts begin with the emptied root label; every other path is made absolute |
| Normalize.IdRoundTrip | updatedb.py:118-119 | a decimal spelling of an id denotes that id |
| Normalize.CrumbsDropRoot | updatedb.py:120-123 | a "根目录 > " trail is split on " > " with the root part replaced by "" |
| Normalize.RelativeMadeAbsolute | updatedb.py:124-126 | any other relative path gets a leading "/" |
| Normalize.DecimalRoundTrip | updatedb.py:118-119 | parsing a number's decimal spelling gives the number back |
| Normalize.SplitJoin | updatedb.py:121 | joining the split parts with the separator gives the string back |
| Normalize.SplitPartsFree | updatedb.py:121 | no part of the split contains the separator |
| Normalize.IntRoundTrip | updatedb.py:494-505 | `int()` of the decimal spelling of any integer, signed and surrounded by any whitespace, gives the integer back |
| Normalize.NoDigitNoInt | updatedb.py:494-505 | a string without a digit makes `int()` raise |
| Normalize.StringFieldsConvert | updatedb.py:491-505 | an entry whose ids and mtime are strings (" 170\n" among them) converts, and a `u` of "0" is true |
| Normalize.NullTimeRaises | updatedb.py:504 | a `te` of null makes the conversion raise |
| Normalize.MalformedIdRaises | updatedb.py:497 | a cid of "x3" makes the conversion raise |
| DirListing.IterDir | updatedb.py:508-556 | the listing run to the end ends, counts, yields ancestors and yields rows exactly as `IterDirSpec` |
| DirListing.GetFiles | updatedb.py:524-540 | returns the response exactly when `Fetch` accepts it, takes over the first good count, and raises the fault `Fetch` names otherwise |
| DirListing.PageLoop | updatedb.py:544-554 | the paging loop ends, yields ancestors and yields rows as the walk from the first response |
| DirListing.TakePage | updatedb.py:549-554 | one turn: the page's rows are yielded; then the listing ends, or the next full page at the new offset is fetched and has entries |
| DirListing.Fetch | updatedb.py:524-540 | an accepted page names the directory last in its path and, after the first page, has the first page's count; NotADirectoryError only on the first page, FileNotFoundError and OSBusyError only on later ones |
| DirListing.EffectivePageSize | updatedb.py:514-515 | a page size <= 0 becomes 1024, any other is kept |
| DirListing.Ancestors | updatedb.py:522-535 | the ancestors are the root followed by the path elements after the first |
| DirListing.NormalizeAll | updatedb.py:549 | the rows are the normalized entries up to the first entry that raises |
| DirListingProps.WalkFaults | updatedb.py:544-554 | later requests ask for a full page; every exception except a malformed entry comes from the last request; it hangs only on a request answered empty |
| DirListingProps.WalkOffsets | updatedb.py:550-554 | each later request's offset is right after the previous response's entries, and every earlier response had the first page's count |
| DirListingProps.WalkCompleteCovers | updatedb.py:550-552 | a walk that completes has yielded entries up to the count |
| DirListingProps.IterDirRequests | updatedb.py:514-554 | the first request is (0, min(16, page_size)) with page_size <= 0 read as 1024; later ones ask for a full page starting after the first response |
| DirListingProps.NotADirectoryOnFirstPage | updatedb.py:526-529 | NotADirectoryError happens exactly when the first accepted response names another directory |
| DirListingProps.LaterPageFaults | updatedb.py:527-539 | FileNotFoundError and OSBusyError come only from a later response that names another directory or reports another count |
| DirListingProps.WalkStopsAtFailure | updatedb.py:520-554 | a later request is sent only below a positive count, every request but the last passes `get_files`, and a last one that fails ends the listing with what it raises |
| DirListingProps.LaterPageMismatchRaises | updatedb.py:527-539 | a later response that passes `check_response` but names another directory is the last one and raises FileNotFoundError; one that names the directory with another count is the last one and raises OSBusyError |
| DirListingProps.CompleteListingCovers | updatedb.py:544-554 | a completed listing yields at least the first response's count of rows |
| DirDiff.DiffDir | updatedb.py:559-606 | the method, as written, gives exactly `DiffDirSpec(AsWritten, ...)` |
| DirDiff.CountSaved | updatedb.py:565-569 | `n` starts as the number of saved ids over all groups |
| DirDiff.CloseRest | updatedb.py:604-605 | the tail loop deletes the unseen ids of every group after the current one |
| DirDiff.MergeEntry | updatedb.py:588-603 | one loop body keeps `n` equal to the size of the current group plus the remaining groups, and continues the specification's merge |
| DirDiffProps.DiffDirBusy | updatedb.py:584-586 | OSBusyError is raised only for an id the listing gives twice, and never for a listing with distinct ids |
| DirDiffProps.DiffDirOutputs | updatedb.py:589-605 | every deleted id comes from the saved groups, and the replace list is an in-order subsequence of the listing |
| DirDiffProps.DiffDirDeletesOutdated | updatedb.py:589-605 | on a listing newest first, in both modes, every deleted id is saved in some group whose mtime is above every mtime the listing gives that id |
| DirDiffProps.DiffDirWritesOffGroups | updatedb.py:589-605 | as written, on a listing newest first, every written entry is one of the listing's and has an mtime that no saved group has |
| DirDiffProps.NoSavedRows | updatedb.py:574-576 | with no saved rows the whole listing is written and nothing is deleted |
| DirDiffProps.IntendedDiffSyncs | updatedb.py:559-606 | with the two gaps closed, a merge that runs to its end deletes exactly the saved ids missing from the listing and writes every listed entry that is not already saved with its mtime |
| DirDiffProps.EqualMtimeNewcomerIsLost | updatedb.py:596-603 | as written: a new entry with the current group's mtime but not in the group is neither written nor recorded |
| DirDiffProps.CurrentGroupLeftoversKept | updatedb.py:604-605 | as written: unmatched ids of the current group are not deleted when the listing ends |
| WorkList.UpdateDb | updatedb.py:696-711 | the loop ends, and leaves `seen` and the synced ids, exactly as `UpdateDbSpec` |
| WorkList.SkipSeen | updatedb.py:698-700 | an id already in `seen` is skipped without a sync |
| WorkList.BusyRequeues | updatedb.py:705-707 | OSBusyError puts the id back at the end of the deque without marking it seen |
| WorkList.GoneDropped | updatedb.py:701-704 | a gone or non-directory id is dropped without being marked seen |
| WorkList.OkMarksSeen | updatedb.py:708-711 | a successful sync marks the id seen and enqueues its subdirectories only when `recursive` is set |
| WorkList.RunSyncsOnce | updatedb.py:698-711 | each id is synced successfully at most once over the whole run |
| WorkList.FlatRunStaysOnTop | updatedb.py:708-711 | without `recursive` only the top-level ids are ever queued or synced |
| WorkList.RunEnds | updatedb.py:696 | a drained run leaves an empty deque |
| Dangling.FindDanglingIds | updatedb.py:451-480 | `ok_ids` is exactly the rows whose chain reaches parent 0; `na_ids` is exactly the rows whose chain reaches an id outside the table, together with those missing ids |
| Dangling.FateRules | updatedb.py:466-477 | a row with parent 0 is sound, one with a missing parent is dangling, one with a present parent shares its fate |
| Dangling.DanglingPartition | updatedb.py:451-480 | every row is in exactly one of the two sets, and `na_ids` leaves the table exactly at the missing parents |
| Dangling.CycleUnresolved | updatedb.py:466 | a parent cycle is never resolved, which is why acyclic chains are required |
| Dangling.MissingParentReturned | updatedb.py:473-477 | a row under a missing directory is returned together with that directory's id |
| DirAncestors.BuildItems | updatedb.py:294-313 | the two loops build exactly `items1` (the ancestor chain) and `items2` (the subdirectories being written) |
| DirAncestors.ChangedRows | updatedb.py:322-333 | `changed` is exactly the specification's list for the selected saved rows |
| DirAncestors.UpdateDirAncestors | updatedb.py:290-333 | items and changes as specified; no change when there are no items |
| DirAncestors.Items1WellFormed | updatedb.py:294-303 | every `items1` row's path agrees with its chain, which is a prefix of the listed directory's ancestors |
| DirAncestors.Items1Keys | updatedb.py:294-303 | `items1` has a row for exactly the ancestors below the root |
| DirAncestors.Items2WellFormed | updatedb.py:304-313 | every `items2` row is a listed directory whose chain is the parent chain plus itself, with the path that agrees |
| DirAncestors.SubdirKeys | updatedb.py:304-313 | `items2` has a row for exactly the directories about to be written |
| DirAncestors.ChangedExactly | updatedb.py:322-333 | exactly the saved rows whose name or parent changed give a change, and each carries the old path and the new path and chain |
| DirAncestors.Substr | updatedb.py:339 | SQLite SUBSTR from a 1-based position |
| DirAncestors.RebaseKeepsSubtree | updatedb.py:336-344 | a row below a moved directory gets the new chain plus its own tail and the path that agrees with it |
| DirAncestors.RebaseSparesOthers | updatedb.py:341-342 | a row outside the moved directory, the directory itself included, is left alone |
| DirAncestors.NoItems | updatedb.py:314-315 | there is nothing to do exactly when the chain has no member below the root and no directory is being written |
| Lru.LruDict.constructor | servedb.py:127-128 | a new cache is empty and keeps its `maxsize` |
| Lru.LruDict.Get | servedb.py:125 | reads report the bound value and cannot touch the order |
| Lru.LruDict.Pop | servedb.py:131 | `pop(key, None)` removes the key from the bindings and the order |
| Lru.LruDict.Clean | servedb.py:135-142 | `clean` does what `Evict` specifies |
| Lru.LruDict.SetItem | servedb.py:130-133 | `d[k] = v` keeps the dictionary within its bound and does what `SetSpec` specifies |
| Lru.LruDict.SetDefault | servedb.py:144-147 | `setdefault` returns and does what `SetDefaultSpec` specifies |
| Lru.LruDict.Update | servedb.py:149-165 | `update` is a run of `d[k] = v` over the iterable's pairs, then the keyword pairs |
| Lru.EvictShape | servedb.py:135-142 | eviction keeps the newest `maxsize` keys with their values: oldest first out |
| Lru.SetItemBound | servedb.py:130-133 | after `d[k] = v`: `d[k] == v`, `k` is the newest key, and len <= maxsize when maxsize > 0 |
| Lru.SetItemKeepsOthers | servedb.py:130-142 | the other surviving keys keep their values and relative order and are the newest others; with maxsize <= 0 nothing is evicted |
| Lru.PopThenSet | servedb.py:158-164 | the `pop` that `update` does before each write changes nothing |
| Lru.SetDefaultFacts | servedb.py:144-147 | on a present key: returns its value, changes nothing; on a missing key: acts as `d[k] = default` |
| Lru.SetAllFacts | servedb.py:149-165 | a run of writes keeps the bound, and the last write wins for its key |
| Lru.RemoveShape | servedb.py:131 | removing a key leaves every other key once, in order |
| StrmLinks.Code | servedb.py:121 | `#`, `%`, `/`, `?` become three-character codes; every other character is kept |
| StrmLinks.EscapeSafe | servedb.py:121-122 | the escaped name has no `#`, `/` or `?` |
| StrmLinks.EscapeIdentity | servedb.py:121-122 | a name is kept unchanged exactly when it has none of the four characters |
| StrmLinks.UnquoteEscape | servedb.py:267-271 | percent-decoding the escaped name gives the name back |
| StrmLinks.StrmDataParses | servedb.py:267-271 | the link is `origin/`, then the escaped name up to the first `?`, which decodes to the name, then `pickcode=` and the pick code |
| DavChildren.FolderPath | servedb.py:322-323 | a folder's path ends in "/", which is added only when missing |
| DavChildren.Classify | servedb.py:341-350 | a file the strm predicate selects becomes stem + ".strm" without consulting the visibility predicate; directories are never strm; an entry failing the visibility predicate is dropped |
| DavChildren.ChildrenFromRows | servedb.py:336-351 | every shown child comes from a listed row and is what that row classifies as |
| DavChildren.ChildrenCoverRows | servedb.py:336-351 | every listed row that is not dropped is shown under the name it classifies as |
| Common.AssignAllLastWins | video-115-302.py:104 | a run of dictionary writes leaves each key with the value of its last write |

## Left out

- SQLite is not modelled: no schema, transactions, WAL or VACUUM. Rows and saved groups are inputs. Their order, as `select_mtime_groups` and the SELECT in `update_dir_ancestors` return it, becomes a precondition.
- `update_dir_ancestors` stops at the parameters of the statements it runs. The upsert of `items1` and the order of the `executemany` rebase are not modelled. The rebase `UPDATE` is a per-row function, `Rebase`.
- DirAncestors.Rebase: reads `path LIKE path_old || '/%'` as a prefix test. LIKE's wildcards inside the old path and its ASCII case-insensitivity are not modelled.
- Functions whose code is not in the repository are parameters or uninterpreted: `escape`, `joins`, `normpath`, `splitext`, `make_predicate`, and the JSON `loads`/`dumps` (`json_array_head_replace` works on decoded sequences).
- The remote client (`fs_files`, `fs_dir_getid`, `download_url_app`) is an oracle map from request to response. A missing key stands for a call that raises. Its wire format and retries are not modelled.
- WorkList.UpdateDb: each `updatedb_one` call is a reply from a given script, so the SQLite work inside it and the subdirectory query are not modelled. A run that uses up the script stops with `OutOfReplies`.
- `updatedb`'s resolution of the top-level paths through `fs_dir_getid`, its resume and `select_ids_to_update`, and the final `cleandb` are not modelled. `cleandb` only passes the ids to a DELETE.
- `batch_load_videos` runs its sweep inside `while True` with a `sleep`. One pass is modelled; the endless loop, the timing and the async task are not.
- The `index` route's redirect, the download-link request and the other HTTP routes are not modelled. Only the name-or-pickcode decision is.
- `LRUDict.clean`'s `RuntimeError` catch and `WRITE_LOCK` guard only against concurrent mutation and are not modelled. `maxsize` is a constant of the object, as it is set only in `__init__`.
- Lru.LruDict.Update: an iterable that is a `Mapping` is passed as its sequence of items. The `ItemsView` fallback is not distinguished.
- The `.strm` body is a string. Its UTF-8 encoding to bytes is not modelled.
- WebDAV resources beyond `FolderResource.children`, `get_content` and its blob cache, and `FileResource` size and URL are not modelled.
- Normalize.IsDecimal: `str.isdecimal` is modelled on ASCII digits only. Other Unicode decimal digits are not.
- Normalize.PyInt: `int()` is modelled on ints, booleans, None and strings of ASCII digits with an optional sign and surrounding ASCII whitespace. Underscores between digits, non-ASCII digits and whitespace, and floats (which `int()` truncates) are not modelled.
- Normalize.NormalizeAttr: `pc` and `n` are strings, `s` an integer and `sha` a string. The source copies whatever value it finds, and `or` of another type is not modelled.
- DirListing: the `int()` of the path element's `cid` and `pid` in `get_files` is read as already done; path ids are integers. A path element without `cid`, `pid` or `name` is not modelled.
- VideoIndex: a path element without a `cid` key is not modelled; only an empty path raises.
- Sync hangs: where the source would loop forever (a later page answered empty below its count, in `load_videos` and in `iterdir`), the model stops and reports `Spins`/`Hangs` instead.
- Dangling.FindDanglingIds: requires acyclic parent chains, because the source's `while` loop never ends on a cycle (`CycleUnresolved`). The sets are returned without the iteration order of `dict.items()` mattering.
- DirDiff.DiffDir: the delete list is a set, since it is extended from Python sets whose iteration order is not modelled. The listing is given complete, so an exception that `iterdir` raises midway ends the diff before it is interleaved with the merge.
- Logging, argparse, cookie discovery and lifespan hooks are not modelled, and neither are threads or asyncio.
- VideoIndex: the `str()` conversion of `cid` is not modelled; directory ids are strings throughout.

## Findings

| source | as written | input that shows it | evidently intended | confidence | as-written member | corrected member |
|---|---|---|---|---|---|---|
| updatedb.py:596-603 | an entry with the current group's mtime whose id is not in that group is neither written nor recorded | saved `{5: [1]}`, count 1, listing `[id 2, mtime 5]`: nothing is written and id 1 is not deleted | write the entry, since it is not saved with that mtime, and delete the saved ids it leaves unmatched | not executed | DirDiffProps.EqualMtimeNewcomerIsLost | DirDiffProps.IntendedDiffSyncs |
| updatedb.py:604-605 | when the listing ends, only the groups after the current one lose their unmatched ids | saved `{5: [1, 3]}`, count 1, listing `[id 1, mtime 5]`: id 3 is not deleted | delete the unmatched ids of the current group too | not executed | DirDiffProps.CurrentGroupLeftoversKept | DirDiffProps.IntendedDiffSyncs |
