/**
 * The player's path: the accepted connections between consecutive numbers,
 * the set of visited positions and the next number the player must reach.
 * The rules live in pure functions over a `PathState` value; the `GamePath`
 * class holds the same three fields and updates them in place, each method
 * proved to move its state exactly as the rule says.
 */
module PathModel {
  import opened Wrappers
  import opened MazeModel

  /** One link of the path, from the cell of `fromNumber` to that of `toNumber`. */
  datatype PathConnection = PathConnection(from: Position, to: Position, fromNumber: int, toNumber: int) {

    /** Consecutive numbers on adjacent cells; so the endpoints differ. */
    function IsValid(): (r: bool)
      ensures r ==> from != to && toNumber > fromNumber
    {
      toNumber == fromNumber + 1 && from.IsAdjacent(to)
    }
  }

  /** The three fields of a game path, as one value. */
  datatype PathState = PathState(connections: seq<PathConnection>, visited: set<Position>, currentNumber: int)

  /** The state of a new or cleared path. */
  function Cleared(): PathState {
    PathState([], {}, 1)
  }

  /** Whether `addConnection` accepts `c` in state `s`. */
  predicate AddAccepted(s: PathState, c: PathConnection) {
    && c.IsValid()
    && c.fromNumber == s.currentNumber - 1
    && c.toNumber == s.currentNumber
    && c.to !in s.visited
  }

  /** The state after an accepted `addConnection`. */
  function AfterAdd(s: PathState, c: PathConnection): PathState {
    PathState(s.connections + [c], s.visited + {c.from, c.to}, s.currentNumber + 1)
  }

  /** Whether `startPath` accepts seeding `number` in state `s`. */
  predicate StartAccepted(s: PathState, number: int) {
    number == s.currentNumber && s.visited == {}
  }

  /** The state after an accepted `startPath` at `p`. */
  function AfterStart(s: PathState, p: Position): PathState {
    PathState(s.connections, s.visited + {p}, s.currentNumber + 1)
  }

  function Last(cs: seq<PathConnection>): PathConnection
    requires cs != []
  {
    cs[|cs| - 1]
  }

  /**
   * `removeLastConnection` as the source writes it: pop the last
   * connection, un-visit its `to`, and set the next number to its FROM number.
   */
  function AfterRemoveAsWritten(s: PathState): PathState
    requires s.connections != []
  {
    var last := Last(s.connections);
    PathState(s.connections[..|s.connections| - 1], s.visited - {last.to}, last.fromNumber)
  }

  /**
   * `removeLastConnection` as intended: the same, except that the next
   * number becomes the popped connection's TO number again.
   */
  function AfterRemove(s: PathState): PathState
    requires s.connections != []
  {
    var last := Last(s.connections);
    PathState(s.connections[..|s.connections| - 1], s.visited - {last.to}, last.toNumber)
  }

  /** All endpoints of the connections before index `k`. */
  ghost function EndpointsBefore(cs: seq<PathConnection>, k: nat): set<Position>
    requires k <= |cs|
  {
    (set i | 0 <= i < k :: cs[i].from) + (set i | 0 <= i < k :: cs[i].to)
  }

  /**
   * What every state reached from `Cleared()` satisfies: the connections are
   * valid and chained by number, the next number follows the last connection,
   * every endpoint is visited, and no connection leads back onto an endpoint
   * of an earlier one.
   */
  ghost predicate WellFormed(s: PathState) {
    var cs := s.connections;
    && (forall i :: 0 <= i < |cs| ==> cs[i].IsValid())
    && (forall i :: 0 < i < |cs| ==> cs[i].fromNumber == cs[i - 1].toNumber)
    && (cs != [] ==> s.currentNumber == Last(cs).toNumber + 1)
    && (forall i :: 0 <= i < |cs| ==> cs[i].from in s.visited && cs[i].to in s.visited)
    && (forall i {:trigger EndpointsBefore(cs, i)} :: 0 <= i < |cs| ==> cs[i].to !in EndpointsBefore(cs, i))
  }

  lemma ClearedWellFormed()
    ensures WellFormed(Cleared())
  {
  }

  /** An accepted connection joins consecutive numbers on adjacent cells. */
  lemma AddNeedsConsecutiveAdjacent(s: PathState, c: PathConnection)
    ensures AddAccepted(s, c) ==> c.toNumber == c.fromNumber + 1 && c.from.IsAdjacent(c.to)
  {
  }

  lemma {:induction false} EndpointsBeforeSame(cs: seq<PathConnection>, ds: seq<PathConnection>, k: nat)
    requires k <= |cs| && k <= |ds| && cs[..k] == ds[..k]
    ensures EndpointsBefore(cs, k) == EndpointsBefore(ds, k)
  {
    forall i | 0 <= i < k
      ensures cs[i] == ds[i]
    {
      assert cs[..k][i] == cs[i] && ds[..k][i] == ds[i];
    }
  }

  /** Every endpoint recorded before `k` is visited. */
  lemma EndpointsVisited(s: PathState, k: nat)
    requires WellFormed(s) && k <= |s.connections|
    ensures EndpointsBefore(s.connections, k) <= s.visited
  {
    forall p | p in EndpointsBefore(s.connections, k)
      ensures p in s.visited
    {
      var i :| 0 <= i < k && (p == s.connections[i].from || p == s.connections[i].to);
    }
  }

  lemma StartPreservesWellFormed(s: PathState, n: int, p: Position)
    requires WellFormed(s) && StartAccepted(s, n)
    ensures WellFormed(AfterStart(s, p))
  {
  }

  lemma AddPreservesWellFormed(s: PathState, c: PathConnection)
    requires WellFormed(s) && AddAccepted(s, c)
    ensures WellFormed(AfterAdd(s, c))
  {
    var cs := s.connections + [c];
    var n := |s.connections|;
    assert cs[n] == c;
    assert forall i :: 0 <= i < n ==> cs[i] == s.connections[i];
    EndpointsVisited(s, n);
    FreshTargetsExtend(s.connections, c, s.visited);
  }

  /** Every connection's target is new before it; appending one whose target is unvisited keeps that. */
  lemma FreshTargetsExtend(cs: seq<PathConnection>, c: PathConnection, visited: set<Position>)
    requires forall i {:trigger EndpointsBefore(cs, i)} :: 0 <= i < |cs| ==> cs[i].to !in EndpointsBefore(cs, i)
    requires EndpointsBefore(cs, |cs|) <= visited && c.to !in visited
    ensures forall i {:trigger EndpointsBefore(cs + [c], i)} :: 0 <= i < |cs + [c]| ==> (cs + [c])[i].to !in EndpointsBefore(cs + [c], i)
  {
    var ds := cs + [c];
    forall i | 0 <= i < |ds|
      ensures ds[i].to !in EndpointsBefore(ds, i)
    {
      if i < |cs| {
        assert ds[i] == cs[i];
        EndpointsBeforeSame(ds, cs, i);
      } else {
        assert ds[i] == c;
        EndpointsBeforeSame(ds, cs, |cs|);
      }
    }
  }

  /** The intended undo keeps the invariant. */
  lemma RemovePreservesWellFormed(s: PathState)
    requires WellFormed(s) && s.connections != []
    ensures WellFormed(AfterRemove(s))
  {
    var cs := s.connections;
    var n := |cs|;
    var last := cs[n - 1];
    var ds := cs[..n - 1];
    var t := PathState(ds, s.visited - {last.to}, last.toNumber);
    assert t == AfterRemove(s);
    assert last.to !in EndpointsBefore(cs, n - 1);
    forall i | 0 <= i < n - 1
      ensures ds[i] == cs[i] && ds[i].from in t.visited && ds[i].to in t.visited
    {
      assert cs[i].from in EndpointsBefore(cs, n - 1) && cs[i].to in EndpointsBefore(cs, n - 1);
    }
    forall i | 0 <= i < n - 1
      ensures ds[i].to !in EndpointsBefore(ds, i)
    {
      EndpointsBeforeSame(ds, cs, i);
      assert cs[i].to !in EndpointsBefore(cs, i);
    }
    assert ds != [] ==> t.currentNumber == Last(ds).toNumber + 1 by {
      if ds != [] {
        assert Last(ds) == cs[n - 2];
      }
    }
  }

  /**
   * Round trip: an accepted add from an already visited position, followed by
   * the intended undo, restores the state exactly.
   */
  lemma AddThenRemoveRestores(s: PathState, c: PathConnection)
    requires AddAccepted(s, c) && c.from in s.visited
    ensures AfterRemove(AfterAdd(s, c)) == s
  {
    var t := AfterAdd(s, c);
    assert t.connections[..|t.connections| - 1] == s.connections;
    assert t.visited - {c.to} == s.visited;
  }

  /**
   * The source's undo restores everything but the next number, which ends up
   * one below what it was before the add.
   */
  lemma AddThenRemoveAsWrittenLosesOne(s: PathState, c: PathConnection)
    requires AddAccepted(s, c)
    ensures AfterRemoveAsWritten(AfterAdd(s, c)).currentNumber == s.currentNumber - 1
  {
  }

  /**
   * Concrete case: start at 1, connect 1 -> 2, undo. The next number is 1 and
   * the seed is still visited, so `startPath` can never succeed again and any
   * accepted connection would have to start from a cell numbered 0.
   */
  lemma UndoAsWrittenStrandsPath(p1: Position, p2: Position)
    requires p1.IsAdjacent(p2)
    ensures var c := PathConnection(p1, p2, 1, 2);
            var seeded := AfterStart(Cleared(), p1);
            var undone := AfterRemoveAsWritten(AfterAdd(seeded, c));
            && StartAccepted(Cleared(), 1)
            && AddAccepted(seeded, c)
            && undone.currentNumber == 1 && undone.visited == {p1} && undone.connections == []
            && (forall n :: !StartAccepted(undone, n))
            && (forall d :: AddAccepted(undone, d) ==> d.fromNumber == 0)
            && undone != seeded
  {
    var c := PathConnection(p1, p2, 1, 2);
    var seeded := AfterStart(Cleared(), p1);
    var added := AfterAdd(seeded, c);
    assert added.visited == {p1, p2};
    assert {p1, p2} - {p2} == {p1};
  }

  /** The statistics a finished game is scored from; time in whole seconds. */
  datatype PathStatistics = PathStatistics(totalMoves: int, correctMoves: int, wrongMoves: int,
                                           hintsUsed: int, timeElapsed: nat) {

    /**
     * Ten points per correct move, a bonus of one point per second left of a
     * 300-second allowance, five points off per hint; never negative.
     */
    function Score(): (r: int)
      ensures r >= 0
      ensures r >= correctMoves * 10 + (if timeElapsed < 300 then 300 - timeElapsed else 0) - hintsUsed * 5
      ensures r == 0 || r == correctMoves * 10 + (if timeElapsed < 300 then 300 - timeElapsed else 0) - hintsUsed * 5
    {
      var baseScore := correctMoves * 10;
      var timeBonus := Max(0, 300 - timeElapsed);
      var hintPenalty := hintsUsed * 5;
      Max(0, baseScore + timeBonus - hintPenalty)
    }
  }

  /** 10 correct moves, 2 hints and 50 seconds score 100 + 250 - 10 = 340. */
  lemma ScoreExample()
    ensures PathStatistics(12, 10, 2, 2, 50).Score() == 340
  {
  }

  /** A slower finish or more hints never raise the score; more correct moves never lower it. */
  lemma ScoreMonotone(s: PathStatistics, t: PathStatistics)
    requires t.correctMoves >= s.correctMoves && t.hintsUsed <= s.hintsUsed && t.timeElapsed <= s.timeElapsed
    ensures t.Score() >= s.Score()
  {
  }

  /**
   * The path of one game. The fields are updated in place; `State()` reads
   * them as one `PathState`.
   */
  class GamePath {
    var connections: seq<PathConnection>
    var visitedPositions: set<Position>
    var currentNumber: int
    const maxNumber: int

    function State(): PathState
      reads this
    {
      PathState(connections, visitedPositions, currentNumber)
    }

    constructor (maxNumber: int)
      ensures State() == Cleared() && this.maxNumber == maxNumber
    {
      this.maxNumber := maxNumber;
      connections := [];
      visitedPositions := {};
      currentNumber := 1;
    }

    method AddConnection(c: PathConnection) returns (ok: bool)
      modifies this
      ensures ok == AddAccepted(old(State()), c)
      ensures State() == if ok then AfterAdd(old(State()), c) else old(State())
    {
      if !c.IsValid() {
        return false;
      }
      if c.fromNumber != currentNumber - 1 {
        return false;
      }
      if c.toNumber != currentNumber {
        return false;
      }
      if c.to in visitedPositions {
        return false;
      }
      connections := connections + [c];
      visitedPositions := visitedPositions + {c.from};
      visitedPositions := visitedPositions + {c.to};
      currentNumber := currentNumber + 1;
      return true;
    }

    method StartPath(p: Position, number: int) returns (ok: bool)
      modifies this
      ensures ok == StartAccepted(old(State()), number)
      ensures State() == if ok then AfterStart(old(State()), p) else old(State())
    {
      if number != currentNumber {
        return false;
      }
      if visitedPositions != {} {
        return false;
      }
      visitedPositions := visitedPositions + {p};
      currentNumber := currentNumber + 1;
      return true;
    }

    /** Pops the last connection and returns it; with the intended next number. */
    method RemoveLastConnection() returns (r: Option<PathConnection>)
      modifies this
      ensures old(connections) == [] ==> r == None && State() == old(State())
      ensures old(connections) != [] ==> r == Some(Last(old(connections))) && State() == AfterRemove(old(State()))
    {
      if connections == [] {
        return None;
      }
      var last := connections[|connections| - 1];
      connections := connections[..|connections| - 1];
      visitedPositions := visitedPositions - {last.to};
      currentNumber := last.toNumber;
      return Some(last);
    }

    method Clear()
      modifies this
      ensures State() == Cleared()
    {
      connections := [];
      visitedPositions := {};
      currentNumber := 1;
    }

    /**
     * Complete once the next required number is past the last one: on a
     * well-formed path with a connection, once that connection reaches the
     * last number; on the fresh path, only when there are no numbers; on the
     * path seeded at 1 and not yet extended, only when 1 is the last number.
     */
    function IsComplete(): (r: bool)
      reads this
      ensures WellFormed(State()) && connections != [] ==> (r <==> Last(connections).toNumber >= maxNumber)
      ensures State() == Cleared() ==> (r <==> maxNumber < 1)
      ensures (exists p :: State() == AfterStart(Cleared(), p)) ==> (r <==> maxNumber < 2)
    {
      currentNumber > maxNumber
    }

    /**
     * Adjacent and not yet visited: exactly whether `addConnection` would
     * accept the step from `fromPosition` to `p` between the current numbers.
     */
    function CanConnectTo(p: Position, fromPosition: Position): (r: bool)
      reads this
      ensures r <==> AddAccepted(State(), PathConnection(fromPosition, p, currentNumber - 1, currentNumber))
      ensures r ==> p != fromPosition
    {
      if !fromPosition.IsAdjacent(p) then false
      else if p in visitedPositions then false
      else true
    }

    function GetNextRequiredNumber(): int
      reads this
    {
      currentNumber
    }

    function IsPositionInPath(p: Position): bool
      reads this
    {
      p in visitedPositions
    }

    function GetPathLength(): nat
      reads this
    {
      |connections|
    }

    /** Where the last connection ended, if there is one. */
    function GetLastPosition(): (r: Option<Position>)
      reads this
      ensures r.None? <==> connections == []
      ensures r.Some? ==> r.value == Last(connections).to
    {
      if connections == [] then None else Some(connections[|connections| - 1].to)
    }

    /** The first connection's start, then every connection's end, in order. */
    function GetAllPathPositions(): (r: seq<Position>)
      reads this
      ensures connections == [] ==> r == []
      ensures connections != [] ==> |r| == |connections| + 1 && r[0] == connections[0].from
      ensures connections != [] ==> forall i :: 0 <= i < |connections| ==> r[i + 1] == connections[i].to
    {
      (if connections == [] then [] else [connections[0].from]) + Targets(connections)
    }

    /**
     * The connections that start or end at `p`, in path order: entry `k` is
     * the `k`-th such connection along the path.
     */
    function GetConnectionsForPosition(p: Position): (r: seq<PathConnection>)
      reads this
      ensures forall c :: c in r <==> c in connections && (c.from == p || c.to == p)
      ensures |r| == |TouchingIndices(connections, p)|
      ensures forall k :: 0 <= k < |r| ==> r[k] == connections[TouchingIndices(connections, p)[k]]
    {
      Touching(connections, p)
    }

    /**
     * Every connection is valid, lies on traversable cells carrying its two
     * numbers, and each starts where the previous one ended. The source's
     * continuity loop cannot run over an empty path, hence the precondition.
     */
    method ValidatePath(maze: Maze) returns (ok: bool)
      requires maze.Valid()
      requires connections != []
      ensures ok <==> (forall i :: 0 <= i < |connections| ==> LinkHolds(maze, connections[i]))
                      && (forall i :: 1 <= i < |connections| ==> connections[i - 1].to == connections[i].from)
    {
      for i := 0 to |connections|
        invariant forall j :: 0 <= j < i ==> LinkHolds(maze, connections[j])
      {
        var c := connections[i];
        if !c.IsValid() {
          return false;
        }
        var fromCell := maze.CellAt(c.from);
        var toCell := maze.CellAt(c.to);
        if fromCell.None? || toCell.None? {
          return false;
        }
        if !fromCell.value.IsTraversable() || !toCell.value.IsTraversable() {
          return false;
        }
        if fromCell.value.Number() != Some(c.fromNumber) || toCell.value.Number() != Some(c.toNumber) {
          return false;
        }
      }
      for i := 1 to |connections|
        invariant forall j :: 1 <= j < i ==> connections[j - 1].to == connections[j].from
      {
        if connections[i - 1].to != connections[i].from {
          return false;
        }
      }
      return true;
    }

    /** Whether the cell of the next number can be reached from `p` in one step. */
    function HasValidNextMove(p: Position, maze: Maze): (r: bool)
      reads this, maze
      ensures r <==> currentNumber in maze.numberedCells &&
                     p.IsAdjacent(maze.numberedCells[currentNumber]) &&
                     maze.numberedCells[currentNumber] !in visitedPositions
    {
      if currentNumber !in maze.numberedCells then false
      else CanConnectTo(maze.numberedCells[currentNumber], p)
    }

    /** The hint is where the next required number sits, if it is placed. */
    function GetHintForNextMove(maze: Maze): (r: Option<Position>)
      reads this, maze
      ensures r.None? <==> currentNumber !in maze.numberedCells
      ensures r.Some? ==> r.value == maze.numberedCells[currentNumber]
    {
      if currentNumber in maze.numberedCells then Some(maze.numberedCells[currentNumber]) else None
    }

    /**
     * The neighbours of `p` that are in bounds, traversable and unvisited:
     * all of them, in row-major order.
     */
    function GetPossibleNextPositions(p: Position, maze: Maze): (r: seq<Position>)
      reads this, maze, maze.cells
      requires maze.Valid()
      ensures forall q :: q in r <==> p.IsAdjacent(q) && maze.IsOpen(q) && q !in visitedPositions
      ensures RowMajor(r)
    {
      OpenUnvisited(p.AdjacentPositions(), maze, visitedPositions)
    }
  }

  /** `LinkHolds` is what `validatePath` checks of each connection. */
  ghost predicate LinkHolds(maze: Maze, c: PathConnection)
    reads maze, maze.cells
    requires maze.Valid()
  {
    && c.IsValid()
    && maze.IsOpen(c.from) && maze.IsOpen(c.to)
    && maze.KindAt(c.from) == Numbered(c.fromNumber)
    && maze.KindAt(c.to) == Numbered(c.toNumber)
  }

  function Targets(cs: seq<PathConnection>): (r: seq<Position>)
    ensures |r| == |cs| && forall i :: 0 <= i < |cs| ==> r[i] == cs[i].to
  {
    if cs == [] then [] else [cs[0].to] + Targets(cs[1..])
  }

  /** The positions of the connections that start or end at `p`, ascending. */
  ghost function TouchingIndices(cs: seq<PathConnection>, p: Position): (ix: seq<nat>)
    ensures forall k :: 0 <= k < |ix| ==> ix[k] < |cs| && (cs[ix[k]].from == p || cs[ix[k]].to == p)
    ensures forall k, l :: 0 <= k < l < |ix| ==> ix[k] < ix[l]
    ensures forall i :: 0 <= i < |cs| && (cs[i].from == p || cs[i].to == p) ==> i in ix
  {
    if cs == [] then []
    else
      var n := |cs| - 1;
      TouchingIndices(cs[..n], p) + (if cs[n].from == p || cs[n].to == p then [n] else [])
  }

  /** The connections that start or end at `p`, in path order. */
  function Touching(cs: seq<PathConnection>, p: Position): (r: seq<PathConnection>)
    ensures |r| == |TouchingIndices(cs, p)|
    ensures forall k :: 0 <= k < |r| ==> r[k] == cs[TouchingIndices(cs, p)[k]]
    ensures forall c :: c in r <==> c in cs && (c.from == p || c.to == p)
  {
    if cs == [] then []
    else
      var n := |cs| - 1;
      Touching(cs[..n], p) + (if cs[n].from == p || cs[n].to == p then [cs[n]] else [])
  }


  /** The candidates, in their order, that are open in `maze` and not in `visited`. */
  function OpenUnvisited(cands: seq<Position>, maze: Maze, visited: set<Position>): (r: seq<Position>)
    reads maze, maze.cells
    requires maze.Valid()
    ensures forall q :: q in r <==> q in cands && maze.IsOpen(q) && q !in visited
    ensures RowMajor(cands) ==> RowMajor(r)
  {
    if cands == [] then []
    else
      var rest := OpenUnvisited(cands[1..], maze, visited);
      RowMajorCons(cands, rest);
      if maze.IsOpen(cands[0]) && cands[0] !in visited then [cands[0]] + rest else rest
  }
}
