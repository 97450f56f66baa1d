/**
  The move plan of one pass: which (played item, candidate file) pairs
  match, in which order they are visited, and where each matched file goes.
  Pairs are index pairs `(item, file)` into the played-item list and the
  candidate list.
 */
module Planning {
  import opened Wrappers
  import opened Strings
  import opened Settings
  import opened Destinations

  /**
    One entry of the media server's played-items answer. `name` is `None`
    when the entry has no usable `Name` (the key is absent or not a string);
    reading it then raises.
   */
  datatype PlayedItem = PlayedItem(name: Option<string>)

  /** One `mv` the pass issues. */
  datatype Move = Move(source: string, dest: string)

  /** The item's name occurs in the file's path. */
  predicate Matches(item: PlayedItem, file: string) {
    item.name.Some? && Contains(file, item.name.value)
  }

  /** All matching index pairs, as a set. */
  ghost function MatchSet(items: seq<PlayedItem>, files: seq<string>): (r: set<(nat, nat)>) {
    set i: nat, j: nat | i < |items| && j < |files| && Matches(items[i], files[j]) :: (i, j)
  }

  /** The matching pairs of item `i` among the first `m` files, in file order. */
  function RowPairs(items: seq<PlayedItem>, files: seq<string>, i: nat, m: nat): (r: seq<(nat, nat)>)
    requires i < |items| && m <= |files|
  {
    if m == 0 then []
    else RowPairs(items, files, i, m - 1) + (if Matches(items[i], files[m - 1]) then [(i, m - 1)] else [])
  }

  /** The matching pairs of the first `n` items, item after item. */
  function PairsUpTo(items: seq<PlayedItem>, files: seq<string>, n: nat): (r: seq<(nat, nat)>)
    requires n <= |items|
  {
    if n == 0 then [] else PairsUpTo(items, files, n - 1) + RowPairs(items, files, n - 1, |files|)
  }

  /** The matching pairs in the order the nested loops meet them. */
  function Pairs(items: seq<PlayedItem>, files: seq<string>): (r: seq<(nat, nat)>) {
    PairsUpTo(items, files, |items|)
  }

  /** `p` comes before `q` when items are the outer loop and files the inner. */
  predicate ItemMajorBefore(p: (nat, nat), q: (nat, nat)) {
    p.0 < q.0 || (p.0 == q.0 && p.1 < q.1)
  }

  predicate ItemMajorSorted(ps: seq<(nat, nat)>) {
    forall a, b :: 0 <= a < b < |ps| ==> ItemMajorBefore(ps[a], ps[b])
  }

  /** The move for one pair. */
  function MoveOf(roots: Roots, files: seq<string>, p: (nat, nat)): (r: Move)
    requires p.1 < |files|
  {
    Move(files[p.1], Destination(roots, files[p.1]))
  }

  /** `moves` are the moves of `ps`, one for one and in the same order. */
  predicate MovesFollowPairs(roots: Roots, files: seq<string>, moves: seq<Move>, ps: seq<(nat, nat)>) {
    && |moves| == |ps|
    && forall k :: 0 <= k < |ps| ==> ps[k].1 < |files| && moves[k] == MoveOf(roots, files, ps[k])
  }

  /** The moves the inner loop issues for item `i` over the first `m` files. */
  function RowMoves(roots: Roots, items: seq<PlayedItem>, files: seq<string>, i: nat, m: nat): (r: seq<Move>)
    requires i < |items| && m <= |files|
  {
    if m == 0 then []
    else
      RowMoves(roots, items, files, i, m - 1)
      + (if Matches(items[i], files[m - 1]) then [Move(files[m - 1], Destination(roots, files[m - 1]))] else [])
  }

  /** The moves the nested loops issue for the first `n` items. */
  function MovesUpTo(roots: Roots, items: seq<PlayedItem>, files: seq<string>, n: nat): (r: seq<Move>)
    requires n <= |items|
  {
    if n == 0 then [] else MovesUpTo(roots, items, files, n - 1) + RowMoves(roots, items, files, n - 1, |files|)
  }

  /** The full list of moves a pass issues when nothing raises. */
  function Plan(roots: Roots, items: seq<PlayedItem>, files: seq<string>): (r: seq<Move>) {
    MovesUpTo(roots, items, files, |items|)
  }

  lemma {:induction false} RowPairsShape(items: seq<PlayedItem>, files: seq<string>, i: nat, m: nat)
    requires i < |items| && m <= |files|
    ensures forall p :: p in RowPairs(items, files, i, m) <==>
      p.0 == i && p.1 < m && Matches(items[i], files[p.1])
    ensures ItemMajorSorted(RowPairs(items, files, i, m))
    decreases m
  {
    if m > 0 {
      RowPairsShape(items, files, i, m - 1);
    }
  }

  lemma {:induction false} PairsUpToShape(items: seq<PlayedItem>, files: seq<string>, n: nat)
    requires n <= |items|
    ensures forall p :: p in PairsUpTo(items, files, n) <==>
      p.0 < n && p.1 < |files| && Matches(items[p.0], files[p.1])
    ensures ItemMajorSorted(PairsUpTo(items, files, n))
    decreases n
  {
    if n > 0 {
      var front := PairsUpTo(items, files, n - 1);
      var row := RowPairs(items, files, n - 1, |files|);
      PairsUpToShape(items, files, n - 1);
      RowPairsShape(items, files, n - 1, |files|);
      var all := front + row;
      forall a, b | 0 <= a < b < |all|
        ensures ItemMajorBefore(all[a], all[b])
      {
        if b < |front| {
        } else if a >= |front| {
          assert all[a] == row[a - |front|] && all[b] == row[b - |front|];
        } else {
          assert all[a] in front && all[b] in row;
        }
      }
    }
  }

  /**
    A pair is visited exactly when its item index and file index are in
    range and the item's name occurs in the file's path.
   */
  lemma PairsAreTheMatches(items: seq<PlayedItem>, files: seq<string>)
    ensures forall p :: p in Pairs(items, files) <==> p in MatchSet(items, files)
  {
    PairsUpToShape(items, files, |items|);
  }

  /** The pairs come in item-major, file-minor order, each exactly once. */
  lemma PairsInLoopOrder(items: seq<PlayedItem>, files: seq<string>)
    ensures ItemMajorSorted(Pairs(items, files))
  {
    PairsUpToShape(items, files, |items|);
  }

  lemma {:induction false} SortedDistinctCard(ps: seq<(nat, nat)>)
    requires ItemMajorSorted(ps)
    ensures |(set p | p in ps)| == |ps|
    decreases |ps|
  {
    if ps != [] {
      var tail := ps[1..];
      assert ItemMajorSorted(tail) by {
        forall a, b | 0 <= a < b < |tail|
          ensures ItemMajorBefore(tail[a], tail[b])
        {
          assert tail[a] == ps[a + 1] && tail[b] == ps[b + 1];
        }
      }
      SortedDistinctCard(tail);
      assert ps[0] !in tail;
      assert (set p | p in ps) == {ps[0]} + (set p | p in tail);
    }
  }

  lemma MovesFollowPairsAppend(
    roots: Roots, files: seq<string>, m1: seq<Move>, p1: seq<(nat, nat)>, m2: seq<Move>, p2: seq<(nat, nat)>)
    requires MovesFollowPairs(roots, files, m1, p1) && MovesFollowPairs(roots, files, m2, p2)
    ensures MovesFollowPairs(roots, files, m1 + m2, p1 + p2)
  {
    var ms, ps := m1 + m2, p1 + p2;
    forall k | 0 <= k < |ps|
      ensures ps[k].1 < |files| && ms[k] == MoveOf(roots, files, ps[k])
    {
      if k < |p1| {
        assert ps[k] == p1[k] && ms[k] == m1[k];
      } else {
        assert ps[k] == p2[k - |p1|] && ms[k] == m2[k - |p1|];
      }
    }
  }

  /** The moves one item's inner loop issues are the moves of its matching pairs. */
  lemma {:induction false} RowMovesFollowPairs(roots: Roots, items: seq<PlayedItem>, files: seq<string>, i: nat, m: nat)
    requires i < |items| && m <= |files|
    ensures MovesFollowPairs(roots, files, RowMoves(roots, items, files, i, m), RowPairs(items, files, i, m))
    decreases m
  {
    if m > 0 {
      RowMovesFollowPairs(roots, items, files, i, m - 1);
      var step, stepPairs :=
        if Matches(items[i], files[m - 1]) then [Move(files[m - 1], Destination(roots, files[m - 1]))] else [],
        if Matches(items[i], files[m - 1]) then [(i, m - 1)] else [];
      assert MovesFollowPairs(roots, files, step, stepPairs);
      MovesFollowPairsAppend(
        roots, files, RowMoves(roots, items, files, i, m - 1), RowPairs(items, files, i, m - 1), step, stepPairs);
    }
  }

  /** The moves of the first `n` items are the moves of their matching pairs, in loop order. */
  lemma {:induction false} MovesUpToFollowPairs(roots: Roots, items: seq<PlayedItem>, files: seq<string>, n: nat)
    requires n <= |items|
    ensures MovesFollowPairs(roots, files, MovesUpTo(roots, items, files, n), PairsUpTo(items, files, n))
    decreases n
  {
    if n > 0 {
      MovesUpToFollowPairs(roots, items, files, n - 1);
      RowMovesFollowPairs(roots, items, files, n - 1, |files|);
      MovesFollowPairsAppend(
        roots, files,
        MovesUpTo(roots, items, files, n - 1), PairsUpTo(items, files, n - 1),
        RowMoves(roots, items, files, n - 1, |files|), RowPairs(items, files, n - 1, |files|));
    }
  }

  /** The moves of a pass are the moves of the matching pairs, in loop order. */
  lemma PlanFollowsPairs(roots: Roots, items: seq<PlayedItem>, files: seq<string>)
    ensures MovesFollowPairs(roots, files, Plan(roots, items, files), Pairs(items, files))
  {
    MovesUpToFollowPairs(roots, items, files, |items|);
  }

  /**
    The number of moves equals the number of matching (item, file) pairs,
    counted with multiplicity: a file matched by two items is moved twice.
   */
  lemma PlanCountsMatches(roots: Roots, items: seq<PlayedItem>, files: seq<string>)
    ensures |Plan(roots, items, files)| == |MatchSet(items, files)|
  {
    var ps := Pairs(items, files);
    PlanFollowsPairs(roots, items, files);
    PairsAreTheMatches(items, files);
    PairsInLoopOrder(items, files);
    SortedDistinctCard(ps);
    assert (set p | p in ps) == MatchSet(items, files);
  }

  /**
    Every planned move takes a matched candidate to its mapped destination,
    and the k-th move belongs to the k-th pair in loop order.
   */
  lemma PlanMovesMatchedFiles(roots: Roots, items: seq<PlayedItem>, files: seq<string>)
    ensures var plan := Plan(roots, items, files);
      var ps := Pairs(items, files);
      && |plan| == |ps|
      && forall k :: 0 <= k < |ps| ==>
        && ps[k].0 < |items| && ps[k].1 < |files|
        && Matches(items[ps[k].0], files[ps[k].1])
        && plan[k] == Move(files[ps[k].1], Destination(roots, files[ps[k].1]))
  {
    var ps := Pairs(items, files);
    PlanFollowsPairs(roots, items, files);
    PairsUpToShape(items, files, |items|);
    assert forall k :: 0 <= k < |ps| ==> ps[k] in ps;
  }

  /** An item whose name is the empty string matches every candidate. */
  lemma EmptyNameMatchesEveryFile(items: seq<PlayedItem>, files: seq<string>, i: nat)
    requires i < |items| && items[i].name == Some("")
    ensures forall j :: 0 <= j < |files| ==> (i, j) in Pairs(items, files)
  {
    PairsAreTheMatches(items, files);
    forall j | 0 <= j < |files|
      ensures (i, j) in MatchSet(items, files)
    {
      assert OccursAt(files[j], "", 0);
    }
  }

  /**
    Two played items whose names both occur in one file's path move that
    file twice, and the counter counts both moves.
   */
  lemma FileMatchedTwiceMovesTwice(roots: Roots, a: PlayedItem, b: PlayedItem, f: string)
    requires Matches(a, f) && Matches(b, f)
    ensures Plan(roots, [a, b], [f]) == [Move(f, Destination(roots, f)), Move(f, Destination(roots, f))]
  {
    var items, files := [a, b], [f];
    assert RowMoves(roots, items, files, 0, 1) == [Move(f, Destination(roots, f))];
    assert RowMoves(roots, items, files, 1, 1) == [Move(f, Destination(roots, f))];
    assert MovesUpTo(roots, items, files, 1) == [Move(f, Destination(roots, f))];
    assert MovesUpTo(roots, items, files, 2) == MovesUpTo(roots, items, files, 1) + RowMoves(roots, items, files, 1, 1);
  }

  /** The moves issued before position (i, j) of the loops are the start of the plan. */
  lemma {:induction false} VisitedMovesArePrefix(roots: Roots, items: seq<PlayedItem>, files: seq<string>, i: nat, j: nat)
    requires i < |items| && j <= |files|
    ensures MovesUpTo(roots, items, files, i) + RowMoves(roots, items, files, i, j) <= Plan(roots, items, files)
  {
    RowMovesPrefix(roots, items, files, i, j, |files|);
    MovesUpToPrefix(roots, items, files, i + 1, |items|);
  }

  lemma {:induction false} RowMovesPrefix(roots: Roots, items: seq<PlayedItem>, files: seq<string>, i: nat, j: nat, m: nat)
    requires i < |items| && j <= m <= |files|
    ensures RowMoves(roots, items, files, i, j) <= RowMoves(roots, items, files, i, m)
    decreases m - j
  {
    if j < m {
      RowMovesPrefix(roots, items, files, i, j, m - 1);
    }
  }

  lemma {:induction false} MovesUpToPrefix(roots: Roots, items: seq<PlayedItem>, files: seq<string>, n: nat, m: nat)
    requires n <= m <= |items|
    ensures MovesUpTo(roots, items, files, n) <= MovesUpTo(roots, items, files, m)
    decreases m - n
  {
    if n < m {
      MovesUpToPrefix(roots, items, files, n, m - 1);
    }
  }
}
