/**
 * Maze generation and the solvability oracle: a breadth-first search between
 * two numbers, a chain of such searches through 1, 2, ..., maxNumber, greedy
 * placement of the numbers and obstacle placement that keeps the maze
 * solvable. Random choices are nondeterministic choices from the candidates.
 */
module Generator {
  import opened Wrappers
  import opened MazeModel

  /** No position occurs twice. */
  ghost predicate Distinct(w: seq<Position>) {
    forall i, j :: 0 <= i < j < |w| ==> w[i] != w[j]
  }

  /** Each position is adjacent to the one before it. */
  ghost predicate Chained(w: seq<Position>) {
    forall i :: 0 < i < |w| ==> w[i - 1].IsAdjacent(w[i])
  }

  /** All in-bounds positions of a `size` x `size` grid. */
  ghost function Grid(size: nat): (g: set<Position>)
    ensures forall q :: q in g <==> 0 <= q.row < size && 0 <= q.col < size
  {
    set r, c | 0 <= r < size && 0 <= c < size :: Position(r, c)
  }

  /** The positions of `maze` that are in bounds and not obstacles. */
  ghost function OpenSet(maze: Maze): (s: set<Position>)
    reads maze, maze.cells
    requires maze.Valid()
    ensures forall q :: q in s <==> maze.IsOpen(q)
  {
    set r, c | 0 <= r < maze.size && 0 <= c < maze.size && maze.cells[r, c].IsTraversable() :: Position(r, c)
  }

  /**
   * What a search result is: a walk from `start` to `target` without repeats,
   * each step to an adjacent position that is open and outside `avoid`.
   */
  ghost predicate IsSegment(maze: Maze, w: seq<Position>, start: Position, target: Position, avoid: set<Position>)
    reads maze, maze.cells
    requires maze.Valid()
  {
    && |w| >= 1 && w[0] == start && w[|w| - 1] == target
    && Chained(w) && Distinct(w)
    && forall i :: 0 < i < |w| ==> maze.IsOpen(w[i]) && w[i] !in avoid
  }

  /**
   * A queue entry of the search. Its path is a walk from `start` to `pos`
   * whose later positions are open, outside `avoid` and marked `visited`; it
   * has no repeats, except that `start` itself can be queued a second time
   * once its own neighbours have all been marked.
   */
  ghost predicate EntryOk(maze: Maze, pos: Position, path: seq<Position>, start: Position, target: Position,
                          avoid: set<Position>, visited: set<Position>, startDone: bool)
    reads maze, maze.cells
    requires maze.Valid()
  {
    && |path| >= 1 && path[0] == start && path[|path| - 1] == pos
    && Chained(path)
    && (forall i :: 0 < i < |path| ==> maze.IsOpen(path[i]) && path[i] !in avoid && path[i] in visited)
    && (Distinct(path) || (pos == start && startDone && start != target))
  }

  /** Marking more positions keeps an entry well formed. */
  lemma EntryGrows(maze: Maze, pos: Position, path: seq<Position>, start: Position, target: Position,
                   avoid: set<Position>, visited: set<Position>, visited': set<Position>, startDone: bool)
    requires maze.Valid() && visited <= visited'
    requires EntryOk(maze, pos, path, start, target, avoid, visited, startDone)
    ensures EntryOk(maze, pos, path, start, target, avoid, visited', startDone)
  {
  }

  /** Extending an entry by one unmarked open neighbour gives a well-formed entry. */
  lemma EntryExtends(maze: Maze, pos: Position, path: seq<Position>, start: Position, target: Position,
                     avoid: set<Position>, visited: set<Position>, q: Position)
    requires maze.Valid() && avoid <= visited && start != target
    requires EntryOk(maze, pos, path, start, target, avoid, visited, true)
    requires Distinct(path) || forall q' :: start.IsAdjacent(q') && maze.IsOpen(q') ==> q' in visited
    requires pos.IsAdjacent(q) && maze.IsOpen(q) && q !in visited
    ensures EntryOk(maze, q, path + [q], start, target, avoid, visited + {q}, true)
  {
    var w := path + [q];
    assert Distinct(path);
    forall i | 0 < i < |w|
      ensures w[i - 1].IsAdjacent(w[i])
    {
      if i < |path| {
        assert w[i - 1] == path[i - 1] && w[i] == path[i];
      }
    }
    if q != start {
      forall i, j | 0 <= i < j < |w|
        ensures w[i] != w[j]
      {
        if j < |path| {
          assert w[i] == path[i] && w[j] == path[j];
        } else if 0 < i {
          assert w[i] == path[i] && path[i] in visited;
        }
      }
    }
  }

  /** Every entry of the queue is well formed. */
  ghost predicate QueueOk(maze: Maze, queue: seq<(Position, seq<Position>)>, start: Position, target: Position,
                          avoid: set<Position>, visited: set<Position>, startDone: bool)
    reads maze, maze.cells
    requires maze.Valid()
  {
    forall e :: 0 <= e < |queue| ==> EntryOk(maze, queue[e].0, queue[e].1, start, target, avoid, visited, startDone)
  }

  /** Once the start has been expanded, the entries stay well formed. */
  lemma QueueDone(maze: Maze, queue: seq<(Position, seq<Position>)>, start: Position, target: Position,
                  avoid: set<Position>, visited: set<Position>, startDone: bool)
    requires maze.Valid() && QueueOk(maze, queue, start, target, avoid, visited, startDone)
    ensures QueueOk(maze, queue, start, target, avoid, visited, true)
  {
    forall e | 0 <= e < |queue|
      ensures EntryOk(maze, queue[e].0, queue[e].1, start, target, avoid, visited, true)
    {
      assert EntryOk(maze, queue[e].0, queue[e].1, start, target, avoid, visited, startDone);
    }
  }

  /** Queueing one unmarked open neighbour, marked as it is queued, keeps every entry well formed. */
  lemma QueueExtends(maze: Maze, queue: seq<(Position, seq<Position>)>, pos: Position, path: seq<Position>,
                     start: Position, target: Position, avoid: set<Position>, visited: set<Position>, q: Position)
    requires maze.Valid() && avoid <= visited && start != target
    requires EntryOk(maze, pos, path, start, target, avoid, visited, true)
    requires Distinct(path) || forall q' :: start.IsAdjacent(q') && maze.IsOpen(q') ==> q' in visited
    requires pos.IsAdjacent(q) && maze.IsOpen(q) && q !in visited
    requires QueueOk(maze, queue, start, target, avoid, visited, true)
    ensures QueueOk(maze, queue + [(q, path + [q])], start, target, avoid, visited + {q}, true)
    ensures EntryOk(maze, pos, path, start, target, avoid, visited + {q}, true)
  {
    var visited' := visited + {q};
    var queue' := queue + [(q, path + [q])];
    EntryExtends(maze, pos, path, start, target, avoid, visited, q);
    EntryGrows(maze, pos, path, start, target, avoid, visited, visited', true);
    forall e | 0 <= e < |queue'|
      ensures EntryOk(maze, queue'[e].0, queue'[e].1, start, target, avoid, visited', true)
    {
      if e < |queue| {
        assert queue'[e] == queue[e];
        EntryGrows(maze, queue[e].0, queue[e].1, start, target, avoid, visited, visited', true);
      }
    }
  }

  /** The first `k` of `ps` are closed or marked. */
  ghost predicate Covered(maze: Maze, ps: seq<Position>, k: int, visited: set<Position>)
    reads maze, maze.cells
    requires maze.Valid()
  {
    forall j :: 0 <= j < k && j < |ps| ==> !maze.IsOpen(ps[j]) || ps[j] in visited
  }

  lemma CoveredStep(maze: Maze, ps: seq<Position>, k: int, visited: set<Position>, visited': set<Position>)
    requires maze.Valid() && 0 <= k < |ps| && visited <= visited'
    requires Covered(maze, ps, k, visited)
    requires !maze.IsOpen(ps[k]) || ps[k] in visited'
    ensures Covered(maze, ps, k + 1, visited')
  {
  }

  lemma ShrinkByOne(g: set<Position>, v: set<Position>, q: Position)
    requires q in g && q !in v
    ensures |g - (v + {q})| < |g - v|
  {
    assert g - v == (g - (v + {q})) + {q};
  }

  /**
   * Breadth-first search from `start` to `target` over open 8-neighbours,
   * never entering `avoid`. A position is marked when first queued and never
   * queued again, so the search ends after at most one entry per cell.
   */
  method FindPathBFS(start: Position, target: Position, maze: Maze, avoid: set<Position>)
    returns (r: Option<seq<Position>>)
    requires maze.Valid()
    ensures r.Some? ==> IsSegment(maze, r.value, start, target, avoid)
  {
    var queue: seq<(Position, seq<Position>)> := [(start, [start])];
    var visited := avoid;
    ghost var startDone := false;
    ghost var grid := Grid(maze.size);
    while queue != []
      invariant avoid <= visited
      invariant !startDone ==> queue == [(start, [start])]
      invariant startDone ==> start != target
      invariant startDone ==> forall q :: start.IsAdjacent(q) && maze.IsOpen(q) ==> q in visited
      invariant QueueOk(maze, queue, start, target, avoid, visited, startDone)
      decreases |grid - visited|, |queue|
    {
      var (currentPos, path) := queue[0];
      assert EntryOk(maze, currentPos, path, start, target, avoid, visited, startDone);
      queue := queue[1..];
      if currentPos == target {
        return Some(path);
      }
      assert currentPos == start || startDone;
      ghost var visited0 := visited;
      QueueDone(maze, queue, start, target, avoid, visited, startDone);
      visited, queue := EnqueueNeighbours(maze, currentPos, path, start, target, avoid, visited, queue, grid);
      startDone := true;
    }
    return None;
  }

  /**
   * The inner loop of the search: queue every neighbour of `currentPos` that
   * is in bounds, unmarked and traversable, marking it as it is queued.
   */
  method EnqueueNeighbours(maze: Maze, currentPos: Position, path: seq<Position>, start: Position,
                           target: Position, avoid: set<Position>, visited0: set<Position>,
                           queue0: seq<(Position, seq<Position>)>, ghost grid: set<Position>)
    returns (visited: set<Position>, queue: seq<(Position, seq<Position>)>)
    requires maze.Valid() && avoid <= visited0 && start != target
    requires forall q :: q in grid <==> maze.IsValidPosition(q)
    requires EntryOk(maze, currentPos, path, start, target, avoid, visited0, true)
    requires Distinct(path) || forall q :: start.IsAdjacent(q) && maze.IsOpen(q) ==> q in visited0
    requires QueueOk(maze, queue0, start, target, avoid, visited0, true)
    ensures visited0 <= visited
    ensures (visited == visited0 && queue == queue0) || |grid - visited| < |grid - visited0|
    ensures forall q :: currentPos.IsAdjacent(q) && maze.IsOpen(q) ==> q in visited
    ensures QueueOk(maze, queue, start, target, avoid, visited, true)
  {
    visited, queue := visited0, queue0;
    var adjacent := currentPos.AdjacentPositions();
    for k := 0 to |adjacent|
      invariant visited0 <= visited
      invariant (visited == visited0 && queue == queue0) || |grid - visited| < |grid - visited0|
      invariant Covered(maze, adjacent, k, visited)
      invariant Distinct(path) || forall q :: start.IsAdjacent(q) && maze.IsOpen(q) ==> q in visited
      invariant EntryOk(maze, currentPos, path, start, target, avoid, visited, true)
      invariant QueueOk(maze, queue, start, target, avoid, visited, true)
    {
      var adjacentPos := adjacent[k];
      ghost var before := visited;
      if maze.IsValidPosition(adjacentPos) && adjacentPos !in visited {
        var cell := maze.CellAt(adjacentPos);
        if cell.Some? && cell.value.IsTraversable() {
          ShrinkByOne(grid, visited, adjacentPos);
          assert currentPos.IsAdjacent(adjacentPos) by {
            assert adjacentPos in adjacent;
          }
          QueueExtends(maze, queue, currentPos, path, start, target, avoid, visited, adjacentPos);
          visited, queue := visited + {adjacentPos}, queue + [(adjacentPos, path + [adjacentPos])];
        }
      }
      CoveredStep(maze, adjacent, k, before, visited);
    }
    forall q | currentPos.IsAdjacent(q) && maze.IsOpen(q)
      ensures q in visited
    {
      assert q in adjacent;
    }
  }

  /**
   * `marks[k]` is an index of `w`, at least `lo`, where `w` is at the
   * position of number `from + k`, for every number from `from` up to
   * `maxNumber`; the indices never decrease and the last one ends `w`.
   */
  ghost predicate MarksNumbers(numbered: map<int, Position>, maxNumber: int, w: seq<Position>,
                               marks: seq<int>, from: int, lo: int)
  {
    && |marks| == (if from <= maxNumber then maxNumber - from + 1 else 0)
    && (forall k :: 0 <= k < |marks| ==>
          0 <= marks[k] && lo <= marks[k] < |w| && from + k in numbered && w[marks[k]] == numbered[from + k])
    && (forall k :: 0 < k < |marks| ==> marks[k - 1] <= marks[k])
    && (marks != [] ==> marks[|marks| - 1] == |w| - 1)
    && (marks == [] ==> |w| == lo + 1)
  }

  /** Marking one more number in front of the marks of the later ones. */
  lemma MarksCons(numbered: map<int, Position>, maxNumber: int, w: seq<Position>, restMarks: seq<int>,
                  from: int, lo: int, m: int)
    requires MarksNumbers(numbered, maxNumber, w, restMarks, from + 1, m - 1)
    requires from <= maxNumber && from in numbered && 0 <= lo <= m - 1 < |w| && w[m - 1] == numbered[from]
    ensures MarksNumbers(numbered, maxNumber, w, [m - 1] + restMarks, from, lo)
  {
    var marks := [m - 1] + restMarks;
    forall k | 0 < k < |marks|
      ensures marks[k] == restMarks[k - 1]
    {
    }
  }

  /**
   * `w` continues `prefix` with a walk that starts at the end of `prefix`,
   * steps through open positions outside `avoid`, never repeats one, and
   * meets the numbers `from`..`maxNumber` in order.
   */
  ghost predicate ExtendsThrough(maze: Maze, prefix: seq<Position>, avoid: set<Position>, from: int,
                                 w: seq<Position>, marks: seq<int>)
    reads maze, maze.cells
    requires maze.Valid()
  {
    && |prefix| <= |w| && w[..|prefix|] == prefix
    && (prefix == [] ==> w == [])
    && (forall i :: |prefix| <= i < |w| && 0 < i ==> w[i - 1].IsAdjacent(w[i]))
    && (forall i :: |prefix| <= i < |w| ==> maze.IsOpen(w[i]) && w[i] !in avoid)
    && (forall i, j :: |prefix| <= i < j < |w| ==> w[i] != w[j])
    && MarksNumbers(maze.numberedCells, maze.maxNumber, w, marks, from, |prefix| - 1)
  }

  /**
   * A solution of the whole maze: a walk without repeats from the position of
   * number 1 through open positions, meeting 1, 2, ..., maxNumber in order.
   * Only the open set matters, so adding open cells keeps it a solution.
   */
  ghost predicate SolutionIn(open: set<Position>, numbered: map<int, Position>, maxNumber: int,
                             sol: seq<Position>, marks: seq<int>)
  {
    && |sol| >= 1 && 1 in numbered && sol[0] == numbered[1]
    && Chained(sol) && Distinct(sol)
    && (forall i :: 0 < i < |sol| ==> sol[i] in open)
    && MarksNumbers(numbered, maxNumber, sol, marks, 1, 0)
  }

  ghost predicate IsSolution(maze: Maze, sol: seq<Position>, marks: seq<int>)
    reads maze, maze.cells
    requires maze.Valid()
  {
    SolutionIn(OpenSet(maze), maze.numberedCells, maze.maxNumber, sol, marks)
  }

  /** A solution passes through the position of every number 1..maxNumber. */
  lemma SolutionVisitsAllNumbers(open: set<Position>, numbered: map<int, Position>, maxNumber: int,
                                 sol: seq<Position>, marks: seq<int>, n: int)
    requires SolutionIn(open, numbered, maxNumber, sol, marks) && 1 <= n <= maxNumber
    ensures n in numbered && numbered[n] in sol
  {
    assert sol[marks[n - 1]] == numbered[n];
  }

  /** Opening more cells keeps a solution a solution. */
  lemma SolutionMonotone(open: set<Position>, open': set<Position>, numbered: map<int, Position>,
                         maxNumber: int, sol: seq<Position>, marks: seq<int>)
    requires open <= open' && SolutionIn(open, numbered, maxNumber, sol, marks)
    ensures SolutionIn(open', numbered, maxNumber, sol, marks)
  {
  }

  /**
   * Chains a search segment onto the current path: if the rest of the chain
   * extends the longer path, the whole extends the current one.
   */
  lemma ChainSegments(maze: Maze, currentPath: seq<Position>, visited: set<Position>, targetNumber: int,
                      seg: seq<Position>, newPath: seq<Position>, newVisited: set<Position>,
                      w: seq<Position>, restMarks: seq<int>)
    requires maze.Valid() && currentPath != [] && targetNumber <= maze.maxNumber
    requires targetNumber in maze.numberedCells
    requires IsSegment(maze, seg, currentPath[|currentPath| - 1], maze.numberedCells[targetNumber], visited)
    requires newPath == currentPath + seg[1..]
    requires newVisited == visited + set j | 1 <= j < |seg| :: seg[j]
    requires ExtendsThrough(maze, newPath, newVisited, targetNumber + 1, w, restMarks)
    ensures ExtendsThrough(maze, currentPath, visited, targetNumber, w, [|newPath| - 1] + restMarks)
  {
    var n := |currentPath|;
    var m := |newPath|;
    SegmentIndices(currentPath, seg, newPath, w);
    ChainSteps(seg, w, n, m);
    ChainOpen(maze, seg, w, n, m, visited, newVisited);
    ChainDistinct(seg, w, n, m, newVisited);
    MarksCons(maze.numberedCells, maze.maxNumber, w, restMarks, targetNumber, n - 1, m);
  }

  /** The steps of a walk that runs along `seg` from index `n - 1` to `m - 1` and is chained after that. */
  lemma ChainSteps(seg: seq<Position>, w: seq<Position>, n: int, m: int)
    requires 1 <= n <= m <= |w| && |seg| == m - n + 1
    requires forall i :: n - 1 <= i < m ==> w[i] == seg[i - n + 1]
    requires Chained(seg)
    requires forall i :: m <= i < |w| && 0 < i ==> w[i - 1].IsAdjacent(w[i])
    ensures forall i :: n <= i < |w| ==> w[i - 1].IsAdjacent(w[i])
  {
    forall i | n <= i < |w|
      ensures w[i - 1].IsAdjacent(w[i])
    {
      if i < m {
        assert w[i - 1] == seg[i - n] && w[i] == seg[i - n + 1];
      }
    }
  }

  /** The positions of such a walk from `n` on are open and outside `visited`. */
  lemma ChainOpen(maze: Maze, seg: seq<Position>, w: seq<Position>, n: int, m: int,
                  visited: set<Position>, newVisited: set<Position>)
    requires maze.Valid()
    requires 1 <= n <= m <= |w| && |seg| == m - n + 1
    requires forall i :: n - 1 <= i < m ==> w[i] == seg[i - n + 1]
    requires forall i :: 0 < i < |seg| ==> maze.IsOpen(seg[i]) && seg[i] !in visited
    requires visited <= newVisited
    requires forall i :: m <= i < |w| ==> maze.IsOpen(w[i]) && w[i] !in newVisited
    ensures forall i :: n <= i < |w| ==> maze.IsOpen(w[i]) && w[i] !in visited
  {
    forall i | n <= i < |w|
      ensures maze.IsOpen(w[i]) && w[i] !in visited
    {
      if i < m {
        assert w[i] == seg[i - n + 1];
      }
    }
  }

  /** ... and never repeat one, when the tail after `m` avoids the segment's marked cells. */
  lemma ChainDistinct(seg: seq<Position>, w: seq<Position>, n: int, m: int, newVisited: set<Position>)
    requires 1 <= n <= m <= |w| && |seg| == m - n + 1
    requires forall i :: n - 1 <= i < m ==> w[i] == seg[i - n + 1]
    requires Distinct(seg) && forall j :: 1 <= j < |seg| ==> seg[j] in newVisited
    requires forall i :: m <= i < |w| ==> w[i] !in newVisited
    requires forall i, j :: m <= i < j < |w| ==> w[i] != w[j]
    ensures forall i, j :: n <= i < j < |w| ==> w[i] != w[j]
  {
    forall i, j | n <= i < j < |w|
      ensures w[i] != w[j]
    {
      if j < m {
        assert w[i] == seg[i - n + 1] && w[j] == seg[j - n + 1];
      } else if i < m {
        assert w[i] == seg[i - n + 1];
      }
    }
  }

  /** Where the positions of a chained segment sit in a walk that extends the longer path. */
  lemma SegmentIndices(currentPath: seq<Position>, seg: seq<Position>, newPath: seq<Position>, w: seq<Position>)
    requires currentPath != [] && |seg| >= 1 && seg[0] == currentPath[|currentPath| - 1]
    requires newPath == currentPath + seg[1..]
    requires |newPath| <= |w| && w[..|newPath|] == newPath
    ensures |currentPath| <= |w| && w[..|currentPath|] == currentPath
    ensures forall i :: |currentPath| - 1 <= i < |newPath| ==> w[i] == seg[i - |currentPath| + 1]
  {
    var n := |currentPath|;
    var m := |newPath|;
    forall i | 0 <= i < m
      ensures w[i] == newPath[i]
    {
      assert w[..m][i] == w[i];
    }
    assert w[..n] == currentPath by {
      assert newPath[..n] == currentPath;
    }
    forall i | n <= i < m
      ensures w[i] == seg[i - n + 1]
    {
      assert newPath[i] == seg[1..][i - n];
    }
  }

  /**
   * Extends `currentPath` segment by segment through the numbers
   * `targetNumber`..`maxNumber`, each segment a search that avoids every
   * position used so far.
   */
  method FindSolutionRecursive(maze: Maze, currentPath: seq<Position>, visitedPositions: set<Position>,
                               targetNumber: int)
    returns (r: Option<seq<Position>>, ghost marks: seq<int>)
    requires maze.Valid()
    ensures targetNumber > maze.maxNumber ==> r == Some(currentPath)
    ensures targetNumber <= maze.maxNumber && (targetNumber !in maze.numberedCells || currentPath == []) ==> r.None?
    ensures r.Some? ==> ExtendsThrough(maze, currentPath, visitedPositions, targetNumber, r.value, marks)
    decreases maze.maxNumber - targetNumber
  {
    if targetNumber > maze.maxNumber {
      return Some(currentPath), [];
    }
    if targetNumber !in maze.numberedCells {
      return None, [];
    }
    var targetPosition := maze.numberedCells[targetNumber];
    if currentPath == [] {
      return None, [];
    }
    var currentPosition := currentPath[|currentPath| - 1];
    var pathToTarget := FindPathBFS(currentPosition, targetPosition, maze, visitedPositions);
    if pathToTarget.None? {
      return None, [];
    }
    var seg := pathToTarget.value;
    var newPath := currentPath;
    var newVisited := visitedPositions;
    for i := 1 to |seg|
      invariant newPath == currentPath + seg[1..i]
      invariant newVisited == visitedPositions + set j | 1 <= j < i :: seg[j]
    {
      newPath := newPath + [seg[i]];
      newVisited := newVisited + {seg[i]};
    }
    var rest, restMarks := FindSolutionRecursive(maze, newPath, newVisited, targetNumber + 1);
    if rest.None? {
      return None, [];
    }
    ChainSegments(maze, currentPath, visitedPositions, targetNumber, seg, newPath, newVisited,
                  rest.value, restMarks);
    return rest, [|newPath| - 1] + restMarks;
  }

  /** A solution from the position of number 1; none when 1 is not placed. */
  method FindSolution(maze: Maze) returns (r: Option<seq<Position>>, ghost marks: seq<int>)
    requires maze.Valid()
    ensures 1 !in maze.numberedCells ==> r.None?
    ensures r.Some? ==> IsSolution(maze, r.value, marks)
  {
    if 1 !in maze.numberedCells {
      return None, [];
    }
    var startPosition := maze.numberedCells[1];
    var currentPath := [startPosition];
    var visitedPositions := {startPosition};
    ghost var restMarks;
    r, restMarks := FindSolutionRecursive(maze, currentPath, visitedPositions, 2);
    marks := if maze.maxNumber >= 1 then [0] + restMarks else restMarks;
    if r.Some? {
      StartExtends(maze, r.value, restMarks);
    }
  }

  /** A walk extending the one-position path at number 1 through the numbers from 2 on is a solution. */
  lemma StartExtends(maze: Maze, sol: seq<Position>, restMarks: seq<int>)
    requires maze.Valid() && 1 in maze.numberedCells
    requires ExtendsThrough(maze, [maze.numberedCells[1]], {maze.numberedCells[1]}, 2, sol, restMarks)
    ensures IsSolution(maze, sol, if maze.maxNumber >= 1 then [0] + restMarks else restMarks)
  {
    var start := maze.numberedCells[1];
    assert sol[..1] == [start];
    assert sol[0] == start;
    forall i, j | 0 <= i < j < |sol|
      ensures sol[i] != sol[j]
    {
    }
    if maze.maxNumber >= 1 {
      MarksCons(maze.numberedCells, maze.maxNumber, sol, restMarks, 1, 0, 1);
    }
  }

  /** Whether a solution exists, with the solution found as a witness. */
  method IsMazeSolvable(maze: Maze) returns (ok: bool, ghost sol: seq<Position>, ghost marks: seq<int>)
    requires maze.Valid()
    ensures 1 !in maze.numberedCells ==> !ok
    ensures ok ==> IsSolution(maze, sol, marks)
  {
    var r;
    r, marks := FindSolution(maze);
    ok := r.Some?;
    sol := if r.Some? then r.value else [];
  }

  lemma RowMajorDistinct(s: seq<Position>)
    requires RowMajor(s)
    ensures Distinct(s)
  {
  }

  /** Every position of the grid, row by row. */
  method GetAllPositions(size: nat) returns (r: seq<Position>)
    ensures |r| == size * size
    ensures forall q :: q in r <==> 0 <= q.row < size && 0 <= q.col < size
    ensures RowMajor(r)
  {
    r := [];
    for row := 0 to size
      invariant |r| == row * size
      invariant forall q :: q in r <==> 0 <= q.row < row && 0 <= q.col < size
      invariant RowMajor(r)
      invariant forall i :: 0 <= i < |r| ==> r[i].row < row
    {
      for col := 0 to size
        invariant |r| == row * size + col
        invariant forall q :: q in r <==>
                    (0 <= q.row < row && 0 <= q.col < size) || (q.row == row && 0 <= q.col < col)
        invariant RowMajor(r)
        invariant forall i :: 0 <= i < |r| ==> r[i].Precedes(Position(row, col))
      {
        r := r + [Position(row, col)];
      }
      assert (row + 1) * size == row * size + size;
    }
  }

  /** The elements of `s` that satisfy `f`, in their order. */
  function FilterPositions(s: seq<Position>, f: Position -> bool): (r: seq<Position>)
    ensures forall q :: q in r <==> q in s && f(q)
    ensures |r| <= |s|
    ensures RowMajor(s) ==> RowMajor(r)
  {
    if s == [] then []
    else
      var rest := FilterPositions(s[1..], f);
      RowMajorCons(s, rest);
      if f(s[0]) then [s[0]] + rest else rest
  }

  /** Removing one element that occurs once shortens a list by exactly one. */
  lemma {:induction false} RemoveOneLength(s: seq<Position>, x: Position)
    requires Distinct(s) && x in s
    ensures |FilterPositions(s, q => q != x)| == |s| - 1
    decreases |s|
  {
    var f := q => q != x;
    if s[0] == x {
      assert x !in s[1..] by {
        forall k | 0 <= k < |s[1..]|
          ensures s[1..][k] != x
        {
          assert s[1..][k] == s[k + 1];
        }
      }
      RemoveNoneLength(s[1..], x);
    } else {
      assert x in s[1..];
      assert Distinct(s[1..]) by {
        forall i, j | 0 <= i < j < |s[1..]|
          ensures s[1..][i] != s[1..][j]
        {
          assert s[1..][i] == s[i + 1] && s[1..][j] == s[j + 1];
        }
      }
      RemoveOneLength(s[1..], x);
    }
  }

  lemma {:induction false} RemoveNoneLength(s: seq<Position>, x: Position)
    requires x !in s
    ensures FilterPositions(s, q => q != x) == s
    decreases |s|
  {
    if s != [] {
      assert x !in s[1..];
      RemoveNoneLength(s[1..], x);
      assert [s[0]] + s[1..] == s;
    }
  }

  /** The four corners of a `size` x `size` grid. */
  function Corners(size: int): seq<Position> {
    [Position(0, 0), Position(0, size - 1), Position(size - 1, 0), Position(size - 1, size - 1)]
  }

  /** Number 1 goes to a corner, chosen at random. */
  method GetGoodStartPosition(size: int) returns (p: Position)
    ensures p in Corners(size)
    ensures (p.row == 0 || p.row == size - 1) && (p.col == 0 || p.col == size - 1)
    ensures size >= 1 ==> 0 <= p.row < size && 0 <= p.col < size
  {
    var corners := Corners(size);
    assert corners[0] in corners;
    p :| p in corners;
  }

  /** The squared Euclidean distance, which orders positions as the distance does. */
  function DistSq(p: Position, q: Position): nat {
    (p.col - q.col) * (p.col - q.col) + (p.row - q.row) * (p.row - q.row)
  }

  /** The index of the first element of `s` closest to `p`. */
  function ClosestIndex(p: Position, s: seq<Position>): (i: nat)
    requires s != []
    ensures i < |s|
    ensures forall j :: 0 <= j < |s| ==> DistSq(p, s[i]) <= DistSq(p, s[j])
    ensures forall j :: 0 <= j < i ==> DistSq(p, s[j]) > DistSq(p, s[i])
  {
    if |s| == 1 then 0
    else
      var i := ClosestIndex(p, s[..|s| - 1]);
      assert forall j :: 0 <= j < |s| - 1 ==> s[..|s| - 1][j] == s[j];
      if DistSq(p, s[|s| - 1]) < DistSq(p, s[i]) then |s| - 1 else i
  }

  /**
   * Where number `number` goes, given the position of its predecessor:
   * for the first few numbers an in-bounds free neighbour if there is one,
   * otherwise any free neighbour, otherwise the first free position closest
   * to the predecessor. Nothing only when no position is free.
   */
  method FindBestPositionForNumber(number: int, previousPosition: Position, availablePositions: seq<Position>,
                                   maze: Maze)
    returns (r: Option<Position>)
    ensures r.None? <==> availablePositions == []
    ensures r.Some? ==> r.value in availablePositions
    ensures (number <= 5 && exists q :: q in availablePositions && previousPosition.IsAdjacent(q) && maze.IsValidPosition(q))
              ==> previousPosition.IsAdjacent(r.value) && maze.IsValidPosition(r.value)
    ensures (exists q :: q in availablePositions && previousPosition.IsAdjacent(q)) ==> previousPosition.IsAdjacent(r.value)
    ensures r.Some? && (forall q :: q in availablePositions ==> !previousPosition.IsAdjacent(q)) ==>
              exists i :: 0 <= i < |availablePositions| && availablePositions[i] == r.value
                && (forall j :: 0 <= j < |availablePositions| ==>
                      DistSq(previousPosition, r.value) <= DistSq(previousPosition, availablePositions[j]))
                && (forall j :: 0 <= j < i ==>
                      DistSq(previousPosition, availablePositions[j]) > DistSq(previousPosition, r.value))
  {
    if number <= 5 {
      var adjacent := FilterPositions(previousPosition.AdjacentPositions(),
                                      q => maze.IsValidPosition(q) && q in availablePositions);
      if adjacent != [] {
        assert adjacent[0] in adjacent;
        var p :| p in adjacent;
        return Some(p);
      }
    }
    var reachable := FilterPositions(availablePositions, q => previousPosition.IsAdjacent(q));
    if reachable != [] {
      assert reachable[0] in reachable;
      var p :| p in reachable;
      return Some(p);
    }
    if availablePositions == [] {
      return None;
    }
    var i := ClosestIndex(previousPosition, availablePositions);
    return Some(availablePositions[i]);
  }

  /**
   * What holds after the numbers below `number` have been placed: the free
   * list holds in-bounds positions once each and none already used, free and
   * used positions together fill the grid, 1 sits at `start`, and every
   * number below `number` that the grid has room for has its own position.
   */
  ghost predicate PlacedSoFar(maze: Maze, positions: map<int, Position>, available: seq<Position>,
                              number: int, start: Position)
  {
    && RowMajor(available)
    && (forall q :: q in available ==> maze.IsValidPosition(q))
    && |available| + |positions| == maze.size * maze.size
    && |positions| <= number - 1
    && 1 in positions && positions[1] == start
    && (forall k :: k in positions ==> 1 <= k < number && maze.IsValidPosition(positions[k]))
    && (forall k :: k in positions ==> positions[k] !in available)
    && (forall j :: 1 <= j < number && j <= maze.size * maze.size ==> j in positions)
    && (forall a, b :: a in positions && b in positions && a != b ==> positions[a] != positions[b])
  }

  /** One round of the placement loop: place `number` if any position is free. */
  method PlaceNextNumber(maze: Maze, number: int, positions: map<int, Position>, available: seq<Position>,
                         ghost start: Position)
    returns (positions': map<int, Position>, available': seq<Position>)
    requires 2 <= number <= maze.size * maze.size + 1
    requires PlacedSoFar(maze, positions, available, number, start)
    ensures PlacedSoFar(maze, positions', available', number + 1, start)
  {
    var position := FindBestPositionForNumber(number, positions[number - 1], available, maze);
    positions', available' := positions, available;
    if number <= maze.size * maze.size {
      assert |available| >= 1;
    }
    if position.Some? {
      var p := position.value;
      RowMajorDistinct(available);
      RemoveOneLength(available, p);
      positions' := positions[number := p];
      available' := FilterPositions(available, q => q != p);
    }
  }

  /** Before the loop: 1 at `start`, every other cell of the grid free. */
  lemma StartPlaced(maze: Maze, all: seq<Position>, start: Position)
    requires RowMajor(all) && |all| == maze.size * maze.size
    requires forall q :: q in all <==> maze.IsValidPosition(q)
    requires maze.IsValidPosition(start)
    ensures PlacedSoFar(maze, map[1 := start], FilterPositions(all, q => q != start), 2, start)
  {
    RowMajorDistinct(all);
    RemoveOneLength(all, start);
    var positions := map[1 := start];
    var available := FilterPositions(all, q => q != start);
    assert |positions| == 1 && positions.Keys == {1};
    assert RowMajor(available);
    assert forall q :: q in available ==> maze.IsValidPosition(q);
    assert |available| + |positions| == maze.size * maze.size;
    assert forall k :: k in positions ==> positions[k] !in available;
    assert forall j :: 1 <= j < 2 && j <= maze.size * maze.size ==> j in positions;
    assert forall a, b :: a in positions && b in positions ==> a == b;
  }

  /**
   * Places 1 in a corner and each later number by `FindBestPositionForNumber`
   * from its predecessor, removing every chosen position from the free list.
   * The source unwraps the predecessor's position, which is present as long
   * as the grid has at least `maxNumber - 1` cells.
   */
  method GenerateNumberedPositions(maze: Maze, difficulty: Difficulty) returns (positions: map<int, Position>)
    requires maze.size * maze.size + 1 >= difficulty.MaxNumber()
    ensures 1 in positions && positions[1] in Corners(maze.size)
    ensures forall k :: k in positions ==> 1 <= k <= difficulty.MaxNumber() && maze.IsValidPosition(positions[k])
    ensures maze.size * maze.size >= difficulty.MaxNumber() ==>
              forall k :: 1 <= k <= difficulty.MaxNumber() ==> k in positions
    ensures forall a, b :: a in positions && b in positions && a != b ==> positions[a] != positions[b]
  {
    PresetsFit(difficulty);
    var availablePositions := GetAllPositions(maze.size);
    var startPosition := GetGoodStartPosition(maze.size);
    positions := map[1 := startPosition];
    StartPlaced(maze, availablePositions, startPosition);
    availablePositions := FilterPositions(availablePositions, q => q != startPosition);
    for number := 2 to difficulty.MaxNumber() + 1
      invariant PlacedSoFar(maze, positions, availablePositions, number, startPosition)
    {
      positions, availablePositions := PlaceNextNumber(maze, number, positions, availablePositions, startPosition);
    }
  }

  /**
   * Writes each number into its cell, in no particular order; positions out
   * of bounds are skipped. A position named by two numbers keeps one of them.
   */
  method PlaceNumbers(maze: Maze, positions: map<int, Position>)
    requires maze.Valid()
    modifies maze, maze.cells
    ensures maze.Valid()
    ensures forall k :: k in maze.numberedCells <==>
              k in old(maze.numberedCells) || (k in positions && maze.IsValidPosition(positions[k]))
    ensures forall k :: k in maze.numberedCells ==>
              maze.numberedCells[k] == if k in positions && maze.IsValidPosition(positions[k])
                                       then positions[k] else old(maze.numberedCells[k])
    ensures forall r, c :: 0 <= r < maze.size && 0 <= c < maze.size ==>
              maze.cells[r, c] == old(maze.cells[r, c]).(kind := maze.cells[r, c].kind)
    ensures forall r, c ::
              (0 <= r < maze.size && 0 <= c < maze.size && forall k :: k in positions ==> positions[k] != Position(r, c))
              ==> maze.cells[r, c] == old(maze.cells[r, c])
    ensures forall k :: k in positions && maze.IsValidPosition(positions[k]) ==>
              var kind := maze.KindAt(positions[k]);
              kind.Numbered? && kind.number in positions && positions[kind.number] == positions[k]
  {
    var remaining := positions.Keys;
    while remaining != {}
      invariant maze.Valid()
      invariant remaining <= positions.Keys
      invariant forall k :: k in maze.numberedCells <==>
                  k in old(maze.numberedCells) || (k in positions && k !in remaining && maze.IsValidPosition(positions[k]))
      invariant forall k :: k in maze.numberedCells ==>
                  maze.numberedCells[k] == if k in positions && k !in remaining && maze.IsValidPosition(positions[k])
                                           then positions[k] else old(maze.numberedCells[k])
      invariant forall r, c :: 0 <= r < maze.size && 0 <= c < maze.size ==>
                  maze.cells[r, c] == old(maze.cells[r, c]).(kind := maze.cells[r, c].kind)
      invariant forall r, c ::
                  (0 <= r < maze.size && 0 <= c < maze.size &&
                   forall k :: k in positions && k !in remaining ==> positions[k] != Position(r, c))
                  ==> maze.cells[r, c] == old(maze.cells[r, c])
      invariant forall k :: k in positions && k !in remaining && maze.IsValidPosition(positions[k]) ==>
                  var kind := maze.KindAt(positions[k]);
                  kind.Numbered? && kind.number in positions && kind.number !in remaining &&
                  positions[kind.number] == positions[k]
      decreases |remaining|
    {
      NonEmptyHasElement(remaining);
      var number :| number in remaining;
      maze.SetCell(positions[number], Numbered(number));
      remaining := remaining - {number};
    }
  }

  /**
   * `Int(Double(cells) * pct)` with the percentage as a whole number:
   * the product truncated toward zero.
   */
  function ObstacleCount(cells: int, percent: nat): (r: int)
    ensures cells >= 0 ==> 0 <= r && 100 * r <= cells * percent < 100 * (r + 1)
    ensures cells < 0 ==> r <= 0
  {
    if cells >= 0 then cells * percent / 100 else -((-cells) * percent / 100)
  }

  /**
   * One attempt: put an obstacle on `p` and keep it only if the maze is still
   * solvable, else reset the cell to Empty. A solution that held before the
   * attempt still holds after a reset, since the cell is then open.
   */
  method TryObstacle(maze: Maze, p: Position, ghost solvedBefore: bool,
                     ghost sol0: seq<Position>, ghost marks0: seq<int>)
    returns (kept: bool, ghost sol: seq<Position>, ghost marks: seq<int>)
    requires maze.Valid() && maze.IsValidPosition(p)
    requires solvedBefore ==> IsSolution(maze, sol0, marks0)
    modifies maze, maze.cells
    ensures maze.Valid() && maze.numberedCells == old(maze.numberedCells)
    ensures maze.cells[p.row, p.col] == old(maze.cells[p.row, p.col]).(kind := if kept then Obstacle else Empty)
    ensures forall r, c :: 0 <= r < maze.size && 0 <= c < maze.size && Position(r, c) != p ==>
              maze.cells[r, c] == old(maze.cells[r, c])
    ensures kept ==> IsSolution(maze, sol, marks)
    ensures !kept ==> sol == sol0 && marks == marks0 && (solvedBefore ==> IsSolution(maze, sol, marks))
  {
    ghost var open0 := OpenSet(maze);
    maze.SetCell(p, Obstacle);
    var solvable, s, m := IsMazeSolvable(maze);
    if solvable {
      return true, s, m;
    }
    maze.SetCell(p, Empty);
    assert open0 <= OpenSet(maze) by {
      forall q | q in open0
        ensures maze.IsOpen(q)
      {
      }
    }
    if solvedBefore {
      SolutionMonotone(open0, OpenSet(maze), maze.numberedCells, maze.maxNumber, sol0, marks0);
    }
    return false, sol0, marks0;
  }

  /**
   * At most `count` obstacles kept out of at most three times as many tries
   * (no tries at all when `count` is not positive).
   */
  ghost predicate WithinBudget(placed: int, attempts: int, count: int) {
    0 <= placed <= attempts <= Max(0, 3 * count) && placed <= Max(0, count)
  }

  lemma BudgetOfSameCount(placed: int, attempts: int, cells: int, cells': int, percent: nat)
    requires cells == cells' && WithinBudget(placed, attempts, ObstacleCount(cells, percent))
    ensures WithinBudget(placed, attempts, ObstacleCount(cells', percent))
  {
  }

  /** Cell `b` is cell `a`, or, away from `avoid`, `a` made an obstacle or emptied. */
  ghost predicate Evolved(a: MazeCell, b: MazeCell, avoid: seq<Position>) {
    b == a || (a.position !in avoid && (b == a.(kind := Obstacle) || b == a.(kind := Empty)))
  }

  lemma EvolvedTrans(a: MazeCell, b: MazeCell, c: MazeCell, avoid: seq<Position>)
    requires Evolved(a, b, avoid) && Evolved(b, c, avoid)
    ensures Evolved(a, c, avoid)
  {
  }

  /**
   * Tries up to three times the target number of obstacles, each time on a
   * random free cell outside `avoid`; an obstacle stays only if the maze is
   * still solvable with it, otherwise the cell is reset to Empty. Once one
   * obstacle has stayed, `sol` is a solution of the final maze.
   */
  method GenerateObstacles(maze: Maze, difficulty: Difficulty, avoid: seq<Position>)
    returns (placed: int, attempts: int, ghost sol: seq<Position>, ghost marks: seq<int>)
    requires maze.Valid()
    modifies maze, maze.cells
    ensures maze.Valid() && maze.numberedCells == old(maze.numberedCells)
    ensures WithinBudget(placed, attempts, ObstacleCount(maze.size * maze.size - |avoid|, difficulty.ObstaclePercent()))
    ensures forall r, c :: 0 <= r < maze.size && 0 <= c < maze.size ==>
              Evolved(old(maze.cells[r, c]), maze.cells[r, c], avoid)
    ensures placed > 0 ==> IsSolution(maze, sol, marks)
  {
    var totalCells := maze.size * maze.size;
    var numberedCount := |avoid|;
    var availableCells := totalCells - numberedCount;
    var obstacleCount := ObstacleCount(availableCells, difficulty.ObstaclePercent());
    var availablePositions := GetAllPositions(maze.size);
    availablePositions := FilterPositions(availablePositions, q => q !in avoid);
    placed, attempts := 0, 0;
    sol, marks := [], [];
    var maxAttempts := obstacleCount * 3;
    while placed < obstacleCount && attempts < maxAttempts
      invariant maze.Valid() && maze.numberedCells == old(maze.numberedCells)
      invariant 0 <= placed <= attempts <= Max(0, maxAttempts) && placed <= Max(0, obstacleCount)
      invariant forall q :: q in availablePositions ==> maze.IsValidPosition(q) && q !in avoid
      invariant forall r, c :: 0 <= r < maze.size && 0 <= c < maze.size ==>
                  Evolved(old(maze.cells[r, c]), maze.cells[r, c], avoid)
      invariant placed > 0 ==> IsSolution(maze, sol, marks)
      decreases maxAttempts - attempts
    {
      attempts := attempts + 1;
      if availablePositions == [] {
        break;
      }
      assert availablePositions[0] in availablePositions;
      var randomPosition :| randomPosition in availablePositions;
      var kept;
      label Before:
      kept, sol, marks := TryObstacle(maze, randomPosition, placed > 0, sol, marks);
      forall r, c | 0 <= r < maze.size && 0 <= c < maze.size
        ensures Evolved(old(maze.cells[r, c]), maze.cells[r, c], avoid)
      {
        EvolvedTrans(old(maze.cells[r, c]), old@Before(maze.cells[r, c]), maze.cells[r, c], avoid);
      }
      if kept {
        availablePositions := FilterPositions(availablePositions, q => q != randomPosition);
        placed := placed + 1;
      }
    }
  }

  /** Puts an obstacle on `p` as the simplified maze does: kind only, index untouched. */
  method PlaceObstacle(maze: Maze, p: Position)
    requires maze.Valid() && maze.IsValidPosition(p)
    modifies maze, maze.cells
    ensures maze.Valid() && maze.numberedCells == old(maze.numberedCells)
    ensures maze.cells[p.row, p.col] == old(maze.cells[p.row, p.col]).(kind := Obstacle)
    ensures forall r, c :: 0 <= r < maze.size && 0 <= c < maze.size && Position(r, c) != p ==>
              maze.cells[r, c] == old(maze.cells[r, c])
  {
    maze.SetCell(p, Obstacle);
  }

  /**
   * The fallback maze: the same numbers on a fresh grid, then at most
   * `max(1, 5% of the cells)` obstacles on random cells that hold no number.
   * `obstacles` lists where they went.
   */
  method GenerateSimplifiedMaze(difficulty: Difficulty, numberedPositions: map<int, Position>)
    returns (maze: Maze, ghost obstacles: seq<Position>)
    ensures maze.Valid() && maze.size == difficulty.GridSize() && maze.difficulty == difficulty
    ensures maze.maxNumber == difficulty.MaxNumber()
    ensures forall k :: k in maze.numberedCells <==> k in numberedPositions && maze.IsValidPosition(numberedPositions[k])
    ensures forall k :: k in maze.numberedCells ==> maze.numberedCells[k] == numberedPositions[k]
    ensures |obstacles| <= Max(1, maze.size * maze.size * 5 / 100) && Distinct(obstacles)
    ensures forall q :: q in obstacles ==> maze.IsValidPosition(q) && q !in numberedPositions.Values
    ensures forall r, c :: 0 <= r < maze.size && 0 <= c < maze.size ==>
              (maze.cells[r, c].kind == Obstacle <==> Position(r, c) in obstacles)
    ensures forall k :: k in maze.numberedCells ==>
              var kind := maze.KindAt(maze.numberedCells[k]);
              kind.Numbered? && kind.number in numberedPositions && numberedPositions[kind.number] == numberedPositions[k]
    ensures GeneratedCells(maze)
  {
    var availablePositions;
    maze, availablePositions := SimplifiedGrid(difficulty, numberedPositions);
    var obstacleCount := Max(1, maze.size * maze.size * 5 / 100);
    obstacles := [];
    for i := 0 to obstacleCount
      invariant SimplifiedSoFar(maze, numberedPositions, obstacles, availablePositions)
      invariant |obstacles| <= i
    {
      obstacles, availablePositions := AddRandomObstacle(maze, numberedPositions, obstacles, availablePositions);
    }
  }

  /** The simplified maze before its obstacles: the numbers on a fresh grid, and the cells free for obstacles. */
  method SimplifiedGrid(difficulty: Difficulty, numberedPositions: map<int, Position>)
    returns (maze: Maze, availablePositions: seq<Position>)
    ensures fresh(maze) && fresh(maze.cells)
    ensures maze.size == difficulty.GridSize() && maze.difficulty == difficulty
    ensures maze.maxNumber == difficulty.MaxNumber()
    ensures SimplifiedSoFar(maze, numberedPositions, [], availablePositions)
  {
    maze := new Maze(difficulty.GridSize(), difficulty);
    label Fresh:
    PlaceNumbers(maze, numberedPositions);
    forall r, c | 0 <= r < maze.size && 0 <= c < maze.size
      ensures maze.cells[r, c].kind != Obstacle
      ensures maze.cells[r, c] == NewCell(r, c).(kind := maze.cells[r, c].kind)
      ensures maze.cells[r, c].kind == Empty || Position(r, c) in maze.numberedCells.Values
    {
      assert old@Fresh(maze.cells[r, c]) == NewCell(r, c);
      if forall k :: k in numberedPositions ==> numberedPositions[k] != Position(r, c) {
        assert maze.cells[r, c] == NewCell(r, c);
      } else {
        var k :| k in numberedPositions && numberedPositions[k] == Position(r, c);
        assert maze.KindAt(numberedPositions[k]).Numbered?;
        assert maze.numberedCells[k] == Position(r, c);
      }
    }
    availablePositions := GetAllPositions(maze.size);
    availablePositions := FilterPositions(availablePositions, q => q !in numberedPositions.Values);
    assert ObstacleLists(maze, numberedPositions, [], availablePositions);
    assert old@Fresh(maze.numberedCells) == map[];
    forall k | k in maze.numberedCells
      ensures var kind := maze.KindAt(maze.numberedCells[k]);
              kind.Numbered? && kind.number in numberedPositions && numberedPositions[kind.number] == numberedPositions[k]
    {
      assert k in numberedPositions && maze.IsValidPosition(numberedPositions[k]);
    }
  }

  /** What the simplified maze's obstacle loop keeps. */
  ghost predicate SimplifiedSoFar(maze: Maze, numberedPositions: map<int, Position>, obstacles: seq<Position>,
                                  available: seq<Position>)
    reads maze, maze.cells
  {
    && maze.Valid()
    && (forall k :: k in maze.numberedCells <==> k in numberedPositions && maze.IsValidPosition(numberedPositions[k]))
    && (forall k :: k in maze.numberedCells ==> maze.numberedCells[k] == numberedPositions[k])
    && ObstacleLists(maze, numberedPositions, obstacles, available)
    && GeneratedCells(maze)
    && (forall r, c :: 0 <= r < maze.size && 0 <= c < maze.size ==>
          (maze.cells[r, c].kind == Obstacle <==> Position(r, c) in obstacles))
    && (forall k :: k in maze.numberedCells ==>
          var kind := maze.KindAt(maze.numberedCells[k]);
          kind.Numbered? && kind.number in numberedPositions && numberedPositions[kind.number] == numberedPositions[k])
  }

  /** The placed obstacles are distinct in-bounds unnumbered cells, none still free. */
  ghost predicate ObstacleLists(maze: Maze, numberedPositions: map<int, Position>, obstacles: seq<Position>,
                                available: seq<Position>)
  {
    && Distinct(obstacles)
    && (forall q :: q in available ==> maze.IsValidPosition(q) && q !in numberedPositions.Values)
    && (forall q :: q in obstacles ==> maze.IsValidPosition(q) && q !in numberedPositions.Values)
    && (forall q :: q in obstacles ==> q !in available)
  }

  lemma ObstacleListsStep(maze: Maze, numberedPositions: map<int, Position>, obstacles: seq<Position>,
                          available: seq<Position>, p: Position)
    requires ObstacleLists(maze, numberedPositions, obstacles, available) && p in available
    ensures ObstacleLists(maze, numberedPositions, obstacles + [p], FilterPositions(available, q => q != p))
  {
  }

  /** One round of the simplified maze's loop: an obstacle on a random free cell, if any is left. */
  method AddRandomObstacle(maze: Maze, numberedPositions: map<int, Position>, ghost obstacles: seq<Position>,
                           available: seq<Position>)
    returns (ghost obstacles': seq<Position>, available': seq<Position>)
    requires SimplifiedSoFar(maze, numberedPositions, obstacles, available)
    modifies maze, maze.cells
    ensures SimplifiedSoFar(maze, numberedPositions, obstacles', available')
    ensures |obstacles'| <= |obstacles| + 1
  {
    obstacles', available' := obstacles, available;
    if available != [] {
      assert available[0] in available;
      var randomPosition :| randomPosition in available;
      ObstacleListsStep(maze, numberedPositions, obstacles, available, randomPosition);
      PlaceObstacle(maze, randomPosition);
      available' := FilterPositions(available, q => q != randomPosition);
      obstacles' := obstacles + [randomPosition];
      forall r, c | 0 <= r < maze.size && 0 <= c < maze.size
        ensures maze.cells[r, c].kind == Obstacle <==> Position(r, c) in obstacles'
      {
        assert Position(r, c) in obstacles' <==> Position(r, c) in obstacles || Position(r, c) == randomPosition;
      }
      forall k | k in maze.numberedCells
        ensures maze.KindAt(maze.numberedCells[k]) == old(maze.KindAt(maze.numberedCells[k]))
      {
        assert numberedPositions[k] in numberedPositions.Values;
      }
      forall r, c | 0 <= r < maze.size && 0 <= c < maze.size
        ensures maze.cells[r, c] == NewCell(r, c).(kind := maze.cells[r, c].kind)
        ensures maze.cells[r, c].kind == Empty || maze.cells[r, c].kind == Obstacle ||
                Position(r, c) in maze.numberedCells.Values
      {
        assert old(maze.cells[r, c]) == NewCell(r, c).(kind := old(maze.cells[r, c]).kind);
      }
    }
  }

  /**
   * A generated maze: numbers 1..maxNumber on distinct cells (1 in a corner),
   * obstacles kept only while solvable; if the result is not solvable, the
   * simplified maze with the same numbers instead. `solvable` tells which.
   */
  method GenerateMaze(difficulty: Difficulty)
    returns (maze: Maze, ghost solvable: bool, ghost sol: seq<Position>, ghost marks: seq<int>,
             ghost obstacles: seq<Position>)
    ensures maze.Valid() && maze.size == difficulty.GridSize() && maze.maxNumber == difficulty.MaxNumber()
    ensures maze.difficulty == difficulty
    ensures NumbersPlaced(maze) && GeneratedCells(maze)
    ensures solvable ==> IsSolution(maze, sol, marks)
    ensures !solvable ==>
              |obstacles| <= Max(1, maze.size * maze.size * 5 / 100) &&
              forall r, c :: 0 <= r < maze.size && 0 <= c < maze.size ==>
                (maze.cells[r, c].kind == Obstacle <==> Position(r, c) in obstacles)
  {
    var numberedPositions;
    maze, numberedPositions := NumberedMaze(difficulty);
    label Numbered:
    var _, _, _, _ := AddObstacles(maze, difficulty);
    forall r, c | 0 <= r < maze.size && 0 <= c < maze.size
      ensures maze.cells[r, c] == NewCell(r, c).(kind := maze.cells[r, c].kind)
      ensures maze.cells[r, c].kind == Empty || maze.cells[r, c].kind == Obstacle ||
              Position(r, c) in maze.numberedCells.Values
    {
      GeneratedStep(old@Numbered(maze.cells[r, c]), maze.cells[r, c], r, c, maze.numberedCells.Values);
    }
    var ok;
    ok, sol, marks := IsMazeSolvable(maze);
    obstacles := [];
    solvable := ok;
    if !ok {
      maze, obstacles := SimplifiedFallback(difficulty, numberedPositions);
    }
  }

  /**
   * Obstacle placement on a numbered maze, avoiding the numbered cells: the
   * numbers stay, each other cell is kept or turned into an obstacle or an
   * empty cell, the attempt and placement bounds hold, and once an obstacle
   * has been kept the maze has a solution.
   */
  method AddObstacles(maze: Maze, difficulty: Difficulty)
    returns (placed: int, attempts: int, ghost sol: seq<Position>, ghost marks: seq<int>)
    requires maze.Valid() && NumbersPlaced(maze)
    modifies maze, maze.cells
    ensures maze.Valid() && NumbersPlaced(maze) && maze.numberedCells == old(maze.numberedCells)
    ensures WithinBudget(placed, attempts, ObstacleCount(maze.size * maze.size - |maze.numberedCells|, difficulty.ObstaclePercent()))
    ensures forall r, c :: 0 <= r < maze.size && 0 <= c < maze.size ==>
              || maze.cells[r, c] == old(maze.cells[r, c])
              || (&& Position(r, c) !in maze.numberedCells.Values
                  && (|| maze.cells[r, c] == old(maze.cells[r, c]).(kind := Obstacle)
                      || maze.cells[r, c] == old(maze.cells[r, c]).(kind := Empty)))
    ensures placed > 0 ==> IsSolution(maze, sol, marks)
  {
    var avoid := maze.GetAllNumberedPositions();
    assert |avoid| == |maze.numberedCells|;
    placed, attempts, sol, marks := GenerateObstacles(maze, difficulty, avoid);
    BudgetOfSameCount(placed, attempts, maze.size * maze.size - |avoid|,
                      maze.size * maze.size - |maze.numberedCells|, difficulty.ObstaclePercent());
    forall k | k in maze.numberedCells
      ensures maze.KindAt(maze.numberedCells[k]) == Numbered(k)
    {
      assert maze.numberedCells[k] in avoid;
    }
    forall r, c | 0 <= r < maze.size && 0 <= c < maze.size
      ensures || maze.cells[r, c] == old(maze.cells[r, c])
              || (&& Position(r, c) !in maze.numberedCells.Values
                  && (|| maze.cells[r, c] == old(maze.cells[r, c]).(kind := Obstacle)
                      || maze.cells[r, c] == old(maze.cells[r, c]).(kind := Empty)))
      ensures maze.cells[r, c] == old(maze.cells[r, c]).(kind := maze.cells[r, c].kind)
    {
      assert old(maze.cells[r, c]).position == Position(r, c);
      EvolvedOutside(old(maze.cells[r, c]), maze.cells[r, c], avoid, maze.numberedCells.Values);
    }
  }

  /** One cell of `GeneratedCells` survives a step that keeps it or clears or blocks it outside `values`. */
  lemma GeneratedStep(a: MazeCell, b: MazeCell, r: int, c: int, values: set<Position>)
    requires a == NewCell(r, c).(kind := a.kind)
    requires a.kind == Empty || a.kind == Obstacle || Position(r, c) in values
    requires b == a || (Position(r, c) !in values && (b == a.(kind := Obstacle) || b == a.(kind := Empty)))
    ensures b == NewCell(r, c).(kind := b.kind)
    ensures b.kind == Empty || b.kind == Obstacle || Position(r, c) in values
  {
  }

  /** `Evolved` against a list that holds exactly the positions in `values`. */
  lemma EvolvedOutside(a: MazeCell, b: MazeCell, avoid: seq<Position>, values: set<Position>)
    requires Evolved(a, b, avoid) && forall q :: q in avoid <==> q in values
    ensures b == a || (a.position !in values && (b == a.(kind := Obstacle) || b == a.(kind := Empty)))
    ensures b == a.(kind := b.kind)
  {
  }

  /**
   * The grid a generator hands out: every cell carries its position with no
   * highlight or selection, and is empty, an obstacle or one of the numbered
   * cells; so no cell is part of a path.
   */
  ghost predicate GeneratedCells(maze: Maze)
    reads maze, maze.cells
    requires maze.Valid()
  {
    forall r, c :: 0 <= r < maze.size && 0 <= c < maze.size ==>
      && maze.cells[r, c] == NewCell(r, c).(kind := maze.cells[r, c].kind)
      && (maze.cells[r, c].kind == Empty || maze.cells[r, c].kind == Obstacle ||
          Position(r, c) in maze.numberedCells.Values)
  }

  /** The simplified maze for a layout of numbers that `NumbersLayout` accepts. */
  method SimplifiedFallback(difficulty: Difficulty, numberedPositions: map<int, Position>)
    returns (maze: Maze, ghost obstacles: seq<Position>)
    requires NumbersLayout(numberedPositions, difficulty.GridSize(), difficulty.MaxNumber())
    ensures maze.Valid() && maze.size == difficulty.GridSize() && maze.maxNumber == difficulty.MaxNumber()
    ensures maze.difficulty == difficulty
    ensures NumbersPlaced(maze) && GeneratedCells(maze)
    ensures |obstacles| <= Max(1, maze.size * maze.size * 5 / 100)
    ensures forall r, c :: 0 <= r < maze.size && 0 <= c < maze.size ==>
              (maze.cells[r, c].kind == Obstacle <==> Position(r, c) in obstacles)
  {
    maze, obstacles := GenerateSimplifiedMaze(difficulty, numberedPositions);
    assert forall k :: k in maze.numberedCells.Keys <==> k in numberedPositions.Keys;
    assert maze.numberedCells.Keys == numberedPositions.Keys;
    assert forall k :: k in maze.numberedCells ==> maze.numberedCells[k] == numberedPositions[k];
    assert maze.numberedCells == numberedPositions;
    forall k | k in maze.numberedCells
      ensures maze.KindAt(maze.numberedCells[k]) == Numbered(k)
    {
      var kind := maze.KindAt(maze.numberedCells[k]);
      assert kind.Numbered? && kind.number in numberedPositions && numberedPositions[kind.number] == numberedPositions[k];
    }
  }

  /** A fresh maze with the generated numbers written into it. */
  method NumberedMaze(difficulty: Difficulty) returns (maze: Maze, numberedPositions: map<int, Position>)
    ensures fresh(maze) && fresh(maze.cells)
    ensures maze.Valid() && maze.size == difficulty.GridSize() && maze.maxNumber == difficulty.MaxNumber()
    ensures maze.difficulty == difficulty
    ensures maze.numberedCells == numberedPositions
    ensures NumbersPlaced(maze) && GeneratedCells(maze)
  {
    PresetsFit(difficulty);
    maze := new Maze(difficulty.GridSize(), difficulty);
    numberedPositions := GenerateNumberedPositions(maze, difficulty);
    label Fresh:
    PlaceNumbers(maze, numberedPositions);
    assert forall k :: k in maze.numberedCells.Keys <==> k in numberedPositions.Keys;
    assert maze.numberedCells.Keys == numberedPositions.Keys;
    assert forall k :: k in maze.numberedCells ==> maze.numberedCells[k] == numberedPositions[k];
    assert maze.numberedCells == numberedPositions;
    forall r, c | 0 <= r < maze.size && 0 <= c < maze.size
      ensures maze.cells[r, c] == NewCell(r, c).(kind := maze.cells[r, c].kind)
      ensures maze.cells[r, c].kind == Empty || Position(r, c) in maze.numberedCells.Values
    {
      assert old@Fresh(maze.cells[r, c]) == NewCell(r, c);
      if k :| k in numberedPositions && numberedPositions[k] == Position(r, c) {
        assert maze.numberedCells[k] == Position(r, c);
      }
    }
  }

  /**
   * The numbers 1..maxNumber each have their own in-bounds position of a
   * `size` x `size` grid, number 1 in a corner.
   */
  ghost predicate NumbersLayout(positions: map<int, Position>, size: int, maxNumber: int) {
    && (forall k :: k in positions <==> 1 <= k <= maxNumber)
    && 1 in positions && positions[1] in Corners(size)
    && (forall a, b :: a in positions && b in positions && a != b ==> positions[a] != positions[b])
    && (forall k :: k in positions ==> 0 <= positions[k].row < size && 0 <= positions[k].col < size)
  }

  /** The maze's index is such a layout and every numbered cell shows its own number. */
  ghost predicate NumbersPlaced(maze: Maze)
    reads maze, maze.cells
    requires maze.Valid()
  {
    && NumbersLayout(maze.numberedCells, maze.size, maze.maxNumber)
    && (forall k :: k in maze.numberedCells ==> maze.KindAt(maze.numberedCells[k]) == Numbered(k))
  }
}
