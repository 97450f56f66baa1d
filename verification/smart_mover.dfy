/**
  One pass of `SmartMover.check_and_move`: read the cache usage, stop below
  the threshold, otherwise fetch the played items, gather the candidate
  files and move every candidate whose path contains a played item's name,
  counting the moves. Any exception ends the pass early; it is reported
  here as `Aborted`, carrying the moves already performed.
 */
module SmartMover {
  import opened Wrappers
  import opened Settings
  import opened Strings
  import opened Paths
  import opened Usage
  import opened Candidates
  import opened Destinations
  import opened Planning

  /** The played-items request after its retries: the items, or a failure. */
  datatype Fetch = Fetched(items: seq<PlayedItem>) | FetchError

  /** What ended a pass early. */
  datatype Fault =
    | FetchFailed
      /** `Name` of item `item` could not be read. */
    | MissingName(item: nat)
      /** Creating the destination directory `dir` raised. */
    | MakeDirsFailed(dir: string)

  /**
    The outcome of one pass. Only a completed pass logs its move count;
    an aborted one has performed `moves` before the exception.
   */
  datatype PassResult =
    | BelowThreshold
    | Completed(moves: seq<Move>, movedCount: nat)
    | Aborted(moves: seq<Move>, fault: Fault)

  /**
    `os.makedirs(dir, exist_ok=True)` raises: the directory name is empty,
    or the environment refuses to create it.
   */
  predicate MakeDirsRaises(dir: string, unwritable: set<string>) {
    dir == [] || dir in unwritable
  }

  /** Meeting `item` and `file` in the nested loops raises nothing. */
  predicate StepSucceeds(roots: Roots, item: PlayedItem, file: string, unwritable: set<string>) {
    && item.name.Some?
    && (Contains(file, item.name.value) ==> !MakeDirsRaises(Dirname(Destination(roots, file)), unwritable))
  }

  /** Meeting `item` with each of the first `m` files raises nothing. */
  predicate RowSucceeds(roots: Roots, item: PlayedItem, files: seq<string>, m: nat, unwritable: set<string>) {
    forall j :: 0 <= j < m && j < |files| ==> StepSucceeds(roots, item, files[j], unwritable)
  }

  /** The first `n` items meet every file without raising. */
  predicate RowsSucceed(roots: Roots, items: seq<PlayedItem>, files: seq<string>, n: nat, unwritable: set<string>) {
    forall i :: 0 <= i < n && i < |items| ==> RowSucceeds(roots, items[i], files, |files|, unwritable)
  }

  /** No (item, file) meeting of the nested loops raises. */
  predicate NothingRaises(roots: Roots, items: seq<PlayedItem>, files: seq<string>, unwritable: set<string>) {
    RowsSucceed(roots, items, files, |items|, unwritable)
  }

  /** The fault of a meeting that raises: the item has no name, or the directory cannot be made. */
  predicate RaisedAt(roots: Roots, fault: Fault, item: PlayedItem, i: nat, file: string, unwritable: set<string>) {
    if item.name.None? then
      fault == MissingName(i)
    else
      && fault == MakeDirsFailed(Dirname(Destination(roots, file)))
      && Contains(file, item.name.value)
      && MakeDirsRaises(fault.dir, unwritable)
  }

  lemma RowSucceedsExtend(roots: Roots, item: PlayedItem, files: seq<string>, m: nat, unwritable: set<string>)
    requires m < |files| && RowSucceeds(roots, item, files, m, unwritable)
    requires StepSucceeds(roots, item, files[m], unwritable)
    ensures RowSucceeds(roots, item, files, m + 1, unwritable)
  {
  }

  lemma RowsSucceedExtend(roots: Roots, items: seq<PlayedItem>, files: seq<string>, n: nat, unwritable: set<string>)
    requires n < |items| && RowsSucceed(roots, items, files, n, unwritable)
    requires RowSucceeds(roots, items[n], files, |files|, unwritable)
    ensures RowsSucceed(roots, items, files, n + 1, unwritable)
  {
  }

  /** A meeting that raises is one that does not succeed, so the pass cannot run to the end. */
  lemma RaisedMeansSomethingRaises(
    roots: Roots, items: seq<PlayedItem>, files: seq<string>, i: nat, j: nat, fault: Fault, unwritable: set<string>)
    requires i < |items| && j < |files|
    requires RaisedAt(roots, fault, items[i], i, files[j], unwritable)
    ensures !StepSucceeds(roots, items[i], files[j], unwritable)
    ensures !NothingRaises(roots, items, files, unwritable)
  {
    assert !RowSucceeds(roots, items[i], files, |files|, unwritable);
  }

  /** What meeting one (item, file) pair does. */
  datatype Meeting = NoMatch | Moved(move: Move) | Raised(fault: Fault)

  /**
    The body of the inner loop: read the item's name, test it against the
    file's path, and on a match create the destination directory and move.
   */
  method MeetFile(roots: Roots, item: PlayedItem, i: nat, file: string, unwritable: set<string>) returns (m: Meeting)
    ensures m.NoMatch? ==> StepSucceeds(roots, item, file, unwritable) && !Matches(item, file)
    ensures m.Moved? ==>
      && StepSucceeds(roots, item, file, unwritable)
      && Matches(item, file)
      && m.move == Move(file, Destination(roots, file))
    ensures m.Raised? ==> RaisedAt(roots, m.fault, item, i, file, unwritable)
  {
    if item.name.None? {
      return Raised(MissingName(i));
    }
    if !Contains(file, item.name.value) {
      return NoMatch;
    }
    var dest := Destination(roots, file);
    var dir := Dirname(dest);
    if MakeDirsRaises(dir, unwritable) {
      return Raised(MakeDirsFailed(dir));
    }
    return Moved(Move(file, dest));
  }

  /**
    The inner loop for played item `i`: visits the files in order and moves
    each one whose path contains the item's name. It stops at the first
    meeting that raises; `stop` is where it stopped (`|files|` when it ran
    to the end) and `rowMoves` the moves made for this item before that.
   */
  method MoveForItem(roots: Roots, items: seq<PlayedItem>, files: seq<string>, i: nat, unwritable: set<string>)
    returns (rowMoves: seq<Move>, stop: nat, fault: Option<Fault>)
    requires i < |items|
    ensures stop <= |files|
    ensures rowMoves == RowMoves(roots, items, files, i, stop)
    ensures RowSucceeds(roots, items[i], files, stop, unwritable)
    ensures fault.None? <==> stop == |files|
    ensures fault.Some? ==> stop < |files| && RaisedAt(roots, fault.value, items[i], i, files[stop], unwritable)
  {
    rowMoves := [];
    stop := 0;
    fault := None;
    while stop < |files| && fault.None?
      invariant stop <= |files|
      invariant rowMoves == RowMoves(roots, items, files, i, stop)
      invariant RowSucceeds(roots, items[i], files, stop, unwritable)
      invariant fault.Some? ==> stop < |files| && RaisedAt(roots, fault.value, items[i], i, files[stop], unwritable)
      decreases |files| - stop, if fault.None? then 1 else 0
    {
      var m := MeetFile(roots, items[i], i, files[stop], unwritable);
      if m.Raised? {
        fault := Some(m.fault);
      } else {
        RowSucceedsExtend(roots, items[i], files, stop, unwritable);
        if m.Moved? {
          rowMoves := rowMoves + [m.move];
        }
        stop := stop + 1;
      }
    }
  }

  /**
    The nested loops of a pass: played items outside, candidate files
    inside. Without an exception the moves are the whole plan and the
    counter is the number of matching pairs; with one, the moves made are
    the start of the plan.
   */
  method MovePlayedFiles(roots: Roots, items: seq<PlayedItem>, files: seq<string>, unwritable: set<string>)
    returns (moves: seq<Move>, movedCount: nat, fault: Option<Fault>)
    ensures fault.None? <==> NothingRaises(roots, items, files, unwritable)
    ensures fault.None? ==> moves == Plan(roots, items, files) && movedCount == |MatchSet(items, files)|
    ensures moves <= Plan(roots, items, files)
    ensures movedCount == |moves|
    ensures fault.Some? ==>
      exists i, j ::
        && 0 <= i < |items| && 0 <= j < |files|
        && RowsSucceed(roots, items, files, i, unwritable)
        && RowSucceeds(roots, items[i], files, j, unwritable)
        && RaisedAt(roots, fault.value, items[i], i, files[j], unwritable)
        && moves == MovesUpTo(roots, items, files, i) + RowMoves(roots, items, files, i, j)
  {
    moves := [];
    movedCount := 0;
    fault := None;
    var i: nat := 0;
    var stop: nat := 0;
    while i < |items| && fault.None?
      invariant i <= |items|
      invariant movedCount == |moves|
      invariant fault.None? ==> moves == MovesUpTo(roots, items, files, i) && RowsSucceed(roots, items, files, i, unwritable)
      invariant fault.Some? ==>
        && i < |items| && stop < |files|
        && moves <= Plan(roots, items, files)
        && RowsSucceed(roots, items, files, i, unwritable)
        && RowSucceeds(roots, items[i], files, stop, unwritable)
        && RaisedAt(roots, fault.value, items[i], i, files[stop], unwritable)
        && moves == MovesUpTo(roots, items, files, i) + RowMoves(roots, items, files, i, stop)
      decreases |items| - i, if fault.None? then 1 else 0
    {
      var rowMoves, rowStop, rowFault := MoveForItem(roots, items, files, i, unwritable);
      moves := moves + rowMoves;
      movedCount := movedCount + |rowMoves|;
      if rowFault.Some? {
        VisitedMovesArePrefix(roots, items, files, i, rowStop);
        fault := rowFault;
        stop := rowStop;
      } else {
        RowsSucceedExtend(roots, items, files, i, unwritable);
        i := i + 1;
      }
    }
    if fault.Some? {
      RaisedMeansSomethingRaises(roots, items, files, i, stop, fault.value, unwritable);
    } else {
      PlanCountsMatches(roots, items, files);
    }
  }

  /**
    One pass of a mover whose `cache_path` and `array_path` are `roots` and
    whose `cache_threshold` is `threshold`. `disk`, `fetch` and `entries`
    are what the usage query, the media server and the tree walk return;
    `unwritable` holds the directories whose creation raises. Below the
    threshold nothing else is consulted; at or above it the pass fetches,
    gathers and moves.
   */
  method CheckAndMove(
    roots: Roots, threshold: real, disk: DiskUsage, fetch: Fetch, entries: seq<string>, unwritable: set<string>)
    returns (r: PassResult)
    ensures r.BelowThreshold? <==> UsagePercentage(disk) < threshold
    ensures r == Aborted([], FetchFailed) <==> UsagePercentage(disk) >= threshold && fetch.FetchError?
    ensures r.Completed? <==>
      && UsagePercentage(disk) >= threshold
      && fetch.Fetched?
      && NothingRaises(roots, fetch.items, CacheFiles(entries), unwritable)
    ensures r.Completed? ==>
      && fetch.Fetched?
      && r.moves == Plan(roots, fetch.items, CacheFiles(entries))
      && r.movedCount == |r.moves|
      && r.movedCount == |MatchSet(fetch.items, CacheFiles(entries))|
    ensures r.Aborted? && r.fault.FetchFailed? ==> fetch.FetchError? && r.moves == []
    ensures r.Aborted? && fetch.Fetched? ==> r.moves <= Plan(roots, fetch.items, CacheFiles(entries))
    ensures r.Aborted? && !r.fault.FetchFailed? ==>
      && fetch.Fetched?
      && (exists i, j ::
            && 0 <= i < |fetch.items| && 0 <= j < |CacheFiles(entries)|
            && RowsSucceed(roots, fetch.items, CacheFiles(entries), i, unwritable)
            && RowSucceeds(roots, fetch.items[i], CacheFiles(entries), j, unwritable)
            && RaisedAt(roots, r.fault, fetch.items[i], i, CacheFiles(entries)[j], unwritable)
            && r.moves == MovesUpTo(roots, fetch.items, CacheFiles(entries), i)
                            + RowMoves(roots, fetch.items, CacheFiles(entries), i, j))
  {
    var usage := UsagePercentage(disk);
    if usage < threshold {
      return BelowThreshold;
    }
    if fetch.FetchError? {
      return Aborted([], FetchFailed);
    }
    var moves, movedCount, fault := MovePlayedFiles(roots, fetch.items, CacheFiles(entries), unwritable);
    if fault.Some? {
      return Aborted(moves, fault.value);
    }
    return Completed(moves, movedCount);
  }
}
