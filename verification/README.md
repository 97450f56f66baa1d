# Smart mover: the move pass, modelled in Dafny

This project models one pass of `SmartMover.check_and_move` in `smart_mover.py`.
The pass is meant for an Unraid cache pool. It reads how full the cache is and
stops when usage is below `cache_threshold`. Otherwise it asks the Jellyfin
server for the played items and gathers the video files under the cache root.
Then, for every played item and every candidate file, in that nesting order, it
moves the file when the item's `Name` occurs in the file's path. The destination
is the path with every `/mnt/cache` replaced by `/mnt/user`. A counter counts
the moves. Any exception ends the pass; it is logged and swallowed, and the
pass logs no move count.

The outside world enters as parameters:

- the disk-usage reading: `Usage.DiskUsage`, either byte counts or unavailable;
- the threshold;
- the result of the played-items request after its retries: `SmartMover.Fetch`;
- the walk of the cache tree, as the sequence of paths it yields;
- the set of directories whose creation raises.

The two roots are the instance attributes `cache_path` and `array_path`. They
are a parameter (`Settings.Roots`), and `Settings.DefaultRoots` holds the
values every loaded configuration sets. An exception is a result:
`PassResult.Aborted` carries the moves made before the exception and what
raised.

The modules follow the program:

- `Settings`: the constants.
- `Strings`: Python's `in` and `str.replace`, with the number of occurrences `replace` replaces.
- `Paths`: `os.path.dirname`.
- `Usage`: `get_cache_usage_percentage` and the gate comparison.
- `Candidates`: `get_cache_files`.
- `Destinations`: the `replace` on line 123.
- `Planning`: which pairs match, their order, and the moves they produce.
- `SmartMover`: `move_file`, the nested loops with the counter, and the pass.

The code does not translate paths, classify media, verify copies, move
subtitles or remove empty directories. A played item is matched by a substring
test, the destination is a textual replace, and the move is a bare `mv` whose
result is ignored.

## Model

| member | source | states |
|---|---|---|
| Usage.UsagePercentage | smart_mover.py:52-59 | The usage is never negative, and at most 100 when used does not exceed total; a failing query (including a zero total) yields 0; otherwise the usage times the total equals 100 times the used bytes |
| Usage.UsageReachesThreshold | smart_mover.py:109-112 | The gate opens exactly when 100·used ≥ threshold·total; on a failed reading it opens only for a threshold ≤ 0 |
| Usage.UnreadableUsageStaysBelow | smart_mover.py:57-59 | A failed usage query keeps the pass below any positive threshold, and below the default of 90 |
| Strings.ContainsSpec | smart_mover.py:122 | The substring test holds exactly when the needle occurs at some index of the path |
| Strings.ShorterThanNeedle | smart_mover.py:122 | A path shorter than the name never contains it |
| Strings.ReplaceAllPrefixFree | smart_mover.py:123 | A stretch in which no occurrence starts is copied unchanged, and replacement resumes after it |
| Strings.ReplaceAllLeftmost | smart_mover.py:123 | Replacement begins at the leftmost occurrence: the text before it is kept, the occurrence becomes the replacement, and the rest is replaced in turn |
| Strings.ReplaceAllWithoutOccurrence | smart_mover.py:123 | A string without the pattern is left unchanged |
| Strings.ReplaceAllLength | smart_mover.py:123 | The length changes by the count of replaced occurrences times the length difference of replacement and pattern |
| Strings.CountZeroIffAbsent | smart_mover.py:123 | The count of non-overlapping occurrences is zero exactly when the pattern does not occur |
| Paths.AfterLastSeparatorSpec | smart_mover.py:95 | The split point of `dirname` follows the last `/`, and none lies after it |
| Paths.StrippedEndSpec | smart_mover.py:95 | Stripping trailing separators removes only `/` and leaves none at the end |
| Paths.DirnameSpec | smart_mover.py:95 | The directory is a prefix of the path; it is empty exactly when the path has no `/`; it ends in `/` only when it is all separators; it reaches at most up to the last `/`, with only separators in between; a head of separators only is kept whole |
| Candidates.WithSuffixSpec | smart_mover.py:88 | One glob keeps exactly the walked paths that end with its extension |
| Candidates.GatherMembership | smart_mover.py:86-89 | The gathered list holds exactly the walked paths that end with one of the extensions |
| Candidates.GatherSorted | smart_mover.py:87-88 | With extensions of one length, no two equal, the gathered paths are grouped by extension, in the order the extensions are listed |
| Candidates.GatherPerExtension | smart_mover.py:87-88 | Filtering the gathered list for one extension gives back exactly that extension's glob |
| Candidates.CacheFilesMembership | smart_mover.py:84-89 | A path is a candidate exactly when the walk yields it and it ends in one of the four video extensions |
| Candidates.CacheFilesGroupedByExtension | smart_mover.py:87-88 | All `.mp4` candidates come before all `.mkv`, then `.avi`, then `.m4v` |
| Candidates.CacheFilesPerExtension | smart_mover.py:87-88 | Within one extension the candidates are the walk's paths in walk order, none lost and none added |
| Destinations.DestinationLength | smart_mover.py:123 | Each replaced cache root changes the length by the roots' length difference; with the default roots each occurrence shortens the path by one |
| Destinations.DestinationFixedIffNoCacheRoot | smart_mover.py:123 | With roots of different lengths, a path is its own destination exactly when the cache root does not occur in it |
| Destinations.DestinationOfCacheRootPath | smart_mover.py:123 | A path that starts at the cache root goes to a path that starts at the array root |
| Destinations.DestinationSwapsRootOnly | smart_mover.py:123 | When the cache root occurs only at the start, the destination is the array root and the unchanged remainder, and swapping back recovers the source |
| Destinations.DestinationReplacesInnerOccurrence | smart_mover.py:123 | A second cache root deeper in the path is replaced too, not just the leading one |
| Destinations.DoubleRootExample | smart_mover.py:44-45 | `/mnt/cache/a/mnt/cache/b.mkv` goes to `/mnt/user/a/mnt/user/b.mkv` |
| Planning.RowPairsShape | smart_mover.py:121-122 | The inner loop for one item visits exactly its matching files, in file order |
| Planning.PairsUpToShape | smart_mover.py:120-122 | The first n items yield exactly their matching pairs, in item-major order |
| Planning.PairsAreTheMatches | smart_mover.py:120-122 | A pair is visited exactly when the item's name occurs in the file's path |
| Planning.PairsInLoopOrder | smart_mover.py:120-121 | Pairs come item-major and file-minor, each exactly once |
| Planning.RowMovesFollowPairs | smart_mover.py:121-124 | The moves one item's inner loop issues correspond one for one, in order, to its matching pairs, each taking the pair's file to its destination |
| Planning.MovesUpToFollowPairs | smart_mover.py:120-124 | The moves of the first n items correspond one for one to their matching pairs, in loop order |
| Planning.PlanFollowsPairs | smart_mover.py:120-124 | The moves of a pass correspond one for one to the matching pairs, in loop order |
| Planning.PlanCountsMatches | smart_mover.py:119-125 | The number of moves equals the number of matching (item, file) pairs |
| Planning.PlanMovesMatchedFiles | smart_mover.py:122-124 | The k-th move takes the k-th matched file to its destination |
| Planning.EmptyNameMatchesEveryFile | smart_mover.py:122 | An item whose name is empty matches every candidate |
| Planning.FileMatchedTwiceMovesTwice | smart_mover.py:99-101 | A file matched by two items is moved twice, since the `mv` result is ignored |
| Planning.VisitedMovesArePrefix | smart_mover.py:120-125 | The moves issued up to any point of the nested loops are a prefix of the full plan |
| SmartMover.MeetFile | smart_mover.py:92-104 | A meeting is one of three outcomes. An item without a name raises. A file that does not match is skipped. Otherwise the directory is created, and the file is moved to its destination unless creating the directory raises |
| SmartMover.MoveForItem | smart_mover.py:121-125 | The inner loop issues the moves of the matching files in order and stops at the first meeting that raises |
| SmartMover.MovePlayedFiles | smart_mover.py:119-125 | The loops complete exactly when no meeting raises; the moves are then the whole plan and the counter equals the number of matched pairs; otherwise the fault names the first meeting that raised, every earlier meeting succeeded, and the moves are exactly those of the meetings before it, the failing pair's move excluded |
| SmartMover.CheckAndMove | smart_mover.py:106-130 | Usage below the threshold ends the pass without fetching or moving. At or above it, a failed fetch aborts with no moves, and only a failed fetch aborts with that fault. Otherwise the pass completes with the full plan and its count, or aborts at the first meeting that raises with exactly the moves of the meetings before it |

## Left out

- Loading and writing the JSON configuration (lines 23-50): file I/O. The threshold and the roots are parameters.
- `psutil.disk_usage` (line 55) is a foreign call; its byte counts are an input. The percentage is computed over the reals, so floating-point rounding is not modelled.
- The Jellyfin request and JSON decoding (lines 61-82): network I/O. Its result after the retries is an input: a list of items, or a failure.
- The `tenacity` retries (lines 61 and 91): timing. Only the final outcome is modelled. A `move_file` that fails three times counts as raising.
- `Path.rglob` (line 88): filesystem enumeration. The walk is an input, taken to yield the same paths in the same order for each of the four globs.
- `os.makedirs` (line 96): the set of directories whose creation raises is an input. An empty directory name always raises, as `os.makedirs('')` does.
- `os.system('mv ...')` (line 99): shell side effect. Its exit status is ignored by the code, so a move is an emitted `Move` record. Shell quoting is not modelled.
- Logging via loguru, the `while True` loop with `sleep`, and `main` (lines 13, 132-140): I/O and scheduling. One call of `CheckAndMove` is one pass.
- Exceptions raised by logging or by converting paths to strings are not modelled. An exception is reported only for a missing `Name`, a failed fetch, or a directory that cannot be created.
