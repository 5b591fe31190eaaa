// One game session: the status machine, the move, undo and hint handling
// with their counters, and the one-second timer step. The clock is a
// parameter (`now`, whole seconds); the timer's scheduling is not modelled,
// only the step it runs.

module Game {
  import opened Wrappers
  import opened MazeModel
  import opened PathModel

  datatype GameStatus = NotStarted | Playing | Paused | Completed | Failed | TimeUp

  /** The hints a game starts with. */
  const InitialHints: int := 3

  /** The status-changing requests a session reacts to. */
  datatype GameEvent = Start | Pause | Resume | Restart | Complete | Fail | TimerExpired

  /**
   * The status after `e`: starting needs a fresh or failed game, pausing a
   * running one, resuming a paused one; the other events always apply.
   * Every event either leaves the status alone or moves to the status it
   * names, and a game only comes to be running or paused from the status
   * its event requires.
   */
  function NextStatus(s: GameStatus, e: GameEvent): (r: GameStatus)
    ensures || r == s
            || (e == Start && r == Playing) || (e == Pause && r == Paused) || (e == Resume && r == Playing)
            || (e == Restart && r == NotStarted) || (e == Complete && r == Completed)
            || (e == Fail && r == Failed) || (e == TimerExpired && r == TimeUp)
    ensures r == Playing && s != Playing ==>
              (e == Start && (s == NotStarted || s == Failed)) || (e == Resume && s == Paused)
    ensures r == Paused && s != Paused ==> e == Pause && s == Playing
    ensures (s == Completed || s == TimeUp) && r != s ==> e != Start && e != Pause && e != Resume
    ensures e == Start && (s == NotStarted || s == Failed) ==> r == Playing
    ensures e == Pause && s == Playing ==> r == Paused
    ensures e == Resume && s == Paused ==> r == Playing
  {
    match e
    case Start => if s == NotStarted || s == Failed then Playing else s
    case Pause => if s == Playing then Paused else s
    case Resume => if s == Paused then Playing else s
    case Restart => NotStarted
    case Complete => Completed
    case Fail => Failed
    case TimerExpired => TimeUp
  }

  /** Restarting, completing, failing and running out of time end in the same status whatever the game was doing. */
  lemma ForcedEventsIgnoreStatus(s: GameStatus, t: GameStatus, e: GameEvent)
    requires e == Restart || e == Complete || e == Fail || e == TimerExpired
    ensures NextStatus(s, e) == NextStatus(t, e) && NextStatus(s, e) != Playing && NextStatus(s, e) != Paused
  {
  }

  /** Repeating an event changes nothing more: a second start, pause or resume is ignored. */
  lemma EventsIdempotent(s: GameStatus, e: GameEvent)
    ensures NextStatus(NextStatus(s, e), e) == NextStatus(s, e)
  {
  }

  /** A finished or timed-out game can be neither started, paused nor resumed; only a restart leaves it. */
  lemma FinishedStaysFinished(s: GameStatus, e: GameEvent)
    requires s == Completed || s == TimeUp
    requires e == Start || e == Pause || e == Resume
    ensures NextStatus(s, e) == s
    ensures NextStatus(s, Restart) == NotStarted
  {
  }

  /** Pausing a running game and resuming it gives a running game again; the pair does nothing otherwise. */
  lemma PauseResumeRoundTrip(s: GameStatus)
    ensures NextStatus(NextStatus(s, Pause), Resume) == (if s == Paused then Playing else s)
  {
  }

  /** The plain fields of a session, as one value. */
  datatype Fields = Fields(status: GameStatus, currentLevel: int, score: int, hintsRemaining: int,
                           timeRemaining: int, isTimerActive: bool, startTime: Option<int>,
                           totalMoves: int, correctMoves: int, wrongMoves: int, hintsUsed: int)

  /** The connection a move from `from` to `to` asks for: both cells in bounds and numbered. */
  function MoveConnection(maze: Maze, from: Position, to: Position): (r: Option<PathConnection>)
    reads maze, maze.cells
    requires maze.Valid()
    ensures r.Some? <==> maze.IsValidPosition(from) && maze.IsValidPosition(to) &&
                         maze.KindAt(from).Numbered? && maze.KindAt(to).Numbered?
    ensures r.Some? ==> r.value.from == from && r.value.to == to &&
                        maze.KindAt(from) == Numbered(r.value.fromNumber) &&
                        maze.KindAt(to) == Numbered(r.value.toNumber)
  {
    var fromCell := maze.CellAt(from);
    var toCell := maze.CellAt(to);
    if fromCell.None? || toCell.None? then None
    else
      match (fromCell.value.Number(), toCell.value.Number())
      case (Some(fromNumber), Some(toNumber)) => Some(PathConnection(from, to, fromNumber, toNumber))
      case _ => None
  }

  /** A move is accepted exactly when it joins the cell of the current number to the next one, adjacent and unvisited. */
  lemma MoveAcceptedMeans(maze: Maze, s: PathState, from: Position, to: Position)
    requires maze.Valid()
    ensures var c := MoveConnection(maze, from, to);
            c.Some? && AddAccepted(s, c.value) <==>
              && maze.IsValidPosition(from) && maze.IsValidPosition(to)
              && maze.KindAt(from) == Numbered(s.currentNumber - 1)
              && maze.KindAt(to) == Numbered(s.currentNumber)
              && from.IsAdjacent(to) && to !in s.visited
  {
  }

  /**
   * The score a game with fields `f` earns when it is completed at `now`:
   * the elapsed time is the distance from the start, or zero when the game
   * never started.
   */
  function ScoreAt(f: Fields, now: int): (r: int)
    ensures r >= 0
  {
    var elapsed := if f.startTime.Some? then f.startTime.value - now else 0;
    PathStatistics(f.totalMoves, f.correctMoves, f.wrongMoves, f.hintsUsed, Abs(elapsed)).Score()
  }

  /** The path is well formed and every position on it is a numbered cell of the maze. */
  ghost predicate PathOnNumbers(maze: Maze, path: GamePath)
    reads maze, maze.cells, path
  {
    && maze.Valid()
    && WellFormed(path.State())
    && (forall p :: p in path.visitedPositions ==> maze.IsValidPosition(p) && maze.KindAt(p).Numbered?)
  }

  /**
   * Adds `c`, whose ends are numbered cells, to the path and marks both ends
   * as path cells, which leaves them as they are.
   */
  method Connect(maze: Maze, path: GamePath, c: PathConnection) returns (ok: bool)
    requires PathOnNumbers(maze, path)
    requires maze.IsValidPosition(c.from) && maze.IsValidPosition(c.to)
    requires maze.KindAt(c.from).Numbered? && maze.KindAt(c.to).Numbered?
    modifies path, maze.cells
    ensures PathOnNumbers(maze, path) && unchanged(maze.cells)
    ensures ok == AddAccepted(old(path.State()), c)
    ensures path.State() == if ok then AfterAdd(old(path.State()), c) else old(path.State())
  {
    ghost var before := path.State();
    ok := path.AddConnection(c);
    if ok {
      AddPreservesWellFormed(before, c);
      maze.SetPath(c.from);
      maze.SetPath(c.to);
    }
  }

  /**
   * A game session. `maze` and `path` are replaced wholesale by the code that
   * loads a level; every method here changes them only through their own
   * methods.
   */
  class GameState {
    var maze: Maze
    var path: GamePath
    var status: GameStatus
    var currentLevel: int
    var score: int
    var hintsRemaining: int
    var timeRemaining: int
    var isTimerActive: bool
    const gameMode: GameMode
    const difficulty: Difficulty
    var startTime: Option<int>
    var totalMoves: int
    var correctMoves: int
    var wrongMoves: int
    var hintsUsed: int

    function AllFields(): Fields
      reads this
    {
      Fields(status, currentLevel, score, hintsRemaining, timeRemaining, isTimerActive, startTime,
             totalMoves, correctMoves, wrongMoves, hintsUsed)
    }

    /**
     * The session invariant: every counted move is either correct or wrong,
     * the hints used and left add up to the initial three, the timer runs
     * only in a running timed game, and the path is well formed over
     * numbered cells of the maze.
     */
    ghost predicate Valid()
      reads this, maze, maze.cells, path
    {
      && maze.Valid()
      && path.maxNumber == difficulty.MaxNumber()
      && PathOnNumbers(maze, path)
      && totalMoves == correctMoves + wrongMoves && 0 <= correctMoves && 0 <= wrongMoves
      && hintsRemaining + hintsUsed == InitialHints && 0 <= hintsRemaining <= InitialHints
      && 0 <= timeRemaining
      && (isTimerActive ==> status == Playing && gameMode.HasTimeLimit())
    }

    /** Whether moves are taken: only while playing. */
    predicate CanMakeMove()
      reads this
    {
      status == Playing
    }

    /** A new session on an empty maze of the difficulty's size, not yet started. */
    constructor (gameMode: GameMode, difficulty: Difficulty, level: int)
      ensures Valid() && fresh(maze) && fresh(maze.cells) && fresh(path)
      ensures this.gameMode == gameMode && this.difficulty == difficulty
      ensures maze.size == difficulty.GridSize() && maze.difficulty == difficulty && maze.numberedCells == map[]
      ensures path.State() == Cleared() && path.maxNumber == difficulty.MaxNumber()
      ensures AllFields() == Fields(NotStarted, level, 0, InitialHints,
                                    if gameMode.HasTimeLimit() then gameMode.TimeLimitSeconds() else 0,
                                    false, None, 0, 0, 0, 0)
    {
      this.gameMode := gameMode;
      this.difficulty := difficulty;
      currentLevel := level;
      status := NotStarted;
      score := 0;
      hintsRemaining := InitialHints;
      timeRemaining := 0;
      isTimerActive := false;
      startTime := None;
      totalMoves, correctMoves, wrongMoves, hintsUsed := 0, 0, 0, 0;
      maze := new Maze(difficulty.GridSize(), difficulty);
      path := new GamePath(difficulty.MaxNumber());
      new;
      if gameMode.HasTimeLimit() {
        timeRemaining := gameMode.TimeLimitSeconds();
      }
      SetupGame();
    }

    /** Counters, score and hints back to their start values; a timed game gets its full time again. */
    method SetupGame()
      modifies this
      ensures maze == old(maze) && path == old(path)
      ensures AllFields() == old(AllFields()).(totalMoves := 0, correctMoves := 0, wrongMoves := 0, hintsUsed := 0,
                                               score := 0, hintsRemaining := InitialHints,
                                               timeRemaining := if gameMode.HasTimeLimit() then gameMode.TimeLimitSeconds()
                                                                else old(timeRemaining))
    {
      totalMoves := 0;
      correctMoves := 0;
      wrongMoves := 0;
      hintsUsed := 0;
      score := 0;
      hintsRemaining := InitialHints;
      if gameMode.HasTimeLimit() {
        timeRemaining := gameMode.TimeLimitSeconds();
      }
    }

    /** The timer runs only in a timed game. */
    method StartTimer()
      modifies this
      ensures maze == old(maze) && path == old(path)
      ensures AllFields() == old(AllFields()).(isTimerActive := old(isTimerActive) || gameMode.HasTimeLimit())
    {
      if !gameMode.HasTimeLimit() {
        return;
      }
      isTimerActive := true;
    }

    method StopTimer()
      modifies this
      ensures maze == old(maze) && path == old(path)
      ensures AllFields() == old(AllFields()).(isTimerActive := false)
    {
      isTimerActive := false;
    }

    /** Starts a fresh or failed game at time `now`; otherwise does nothing. */
    method StartGame(now: int)
      requires Valid()
      modifies this
      ensures Valid() && maze == old(maze) && path == old(path)
      ensures status == NextStatus(old(status), Start)
      ensures old(status) == NotStarted || old(status) == Failed ==>
                AllFields() == old(AllFields()).(status := Playing, startTime := Some(now),
                                                 isTimerActive := old(isTimerActive) || gameMode.HasTimeLimit())
      ensures old(status) != NotStarted && old(status) != Failed ==> AllFields() == old(AllFields())
    {
      if status != NotStarted && status != Failed {
        return;
      }
      status := Playing;
      startTime := Some(now);
      if gameMode.HasTimeLimit() {
        StartTimer();
      }
    }

    method PauseGame()
      requires Valid()
      modifies this
      ensures Valid() && maze == old(maze) && path == old(path)
      ensures status == NextStatus(old(status), Pause)
      ensures old(status) == Playing ==> AllFields() == old(AllFields()).(status := Paused, isTimerActive := false)
      ensures old(status) != Playing ==> AllFields() == old(AllFields())
    {
      if status != Playing {
        return;
      }
      status := Paused;
      StopTimer();
    }

    method ResumeGame()
      requires Valid()
      modifies this
      ensures Valid() && maze == old(maze) && path == old(path)
      ensures status == NextStatus(old(status), Resume)
      ensures old(status) == Paused ==>
                AllFields() == old(AllFields()).(status := Playing,
                                                 isTimerActive := old(isTimerActive) || gameMode.HasTimeLimit())
      ensures old(status) != Paused ==> AllFields() == old(AllFields())
    {
      if status != Paused {
        return;
      }
      status := Playing;
      if gameMode.HasTimeLimit() {
        StartTimer();
      }
    }

    /**
     * Back to a game not yet started: the path is cleared, path cells become
     * empty, highlights and selections go, counters and hints are reset.
     */
    method RestartGame()
      requires Valid()
      modifies this, path, maze.cells
      ensures Valid() && maze == old(maze) && path == old(path)
      ensures path.State() == Cleared() && maze.numberedCells == old(maze.numberedCells)
      ensures forall r, c :: 0 <= r < maze.size && 0 <= c < maze.size ==>
                maze.cells[r, c] == MazeCell(Position(r, c),
                                             if old(maze.cells[r, c].kind) == Path then Empty else old(maze.cells[r, c].kind),
                                             false, false)
      ensures AllFields() == old(AllFields()).(status := NotStarted, isTimerActive := false,
                                               totalMoves := 0, correctMoves := 0, wrongMoves := 0, hintsUsed := 0,
                                               score := 0, hintsRemaining := InitialHints,
                                               timeRemaining := if gameMode.HasTimeLimit() then gameMode.TimeLimitSeconds()
                                                                else old(timeRemaining))
    {
      StopTimer();
      path.Clear();
      maze.ClearAllPaths();
      maze.ClearHighlights();
      maze.ClearSelections();
      SetupGame();
      status := NotStarted;
      ClearedWellFormed();
    }

    /** The score a completion at `now` earns: whole seconds since the start, zero if never started. */
    function FinalScore(now: int): (r: int)
      reads this
      ensures r >= 0
      ensures startTime.None? ==> r == PathStatistics(totalMoves, correctMoves, wrongMoves, hintsUsed, 0).Score()
      ensures startTime.Some? ==>
                r == PathStatistics(totalMoves, correctMoves, wrongMoves, hintsUsed, Abs(startTime.value - now)).Score()
    {
      ScoreAt(AllFields(), now)
    }

    /** Ends the game as won at `now`: the timer stops and the final score is set. */
    method CompleteGame(now: int)
      requires Valid()
      modifies this
      ensures Valid() && maze == old(maze) && path == old(path)
      ensures status == NextStatus(old(status), Complete)
      ensures AllFields() == old(AllFields()).(status := Completed, isTimerActive := false,
                                               score := old(FinalScore(now)))
    {
      status := Completed;
      StopTimer();
      score := FinalScore(now);
    }

    method FailGame()
      requires Valid()
      modifies this
      ensures Valid() && maze == old(maze) && path == old(path)
      ensures status == NextStatus(old(status), Fail)
      ensures AllFields() == old(AllFields()).(status := Failed, isTimerActive := false)
    {
      status := Failed;
      StopTimer();
    }

    /** One tick of the timer: a second less while time is left, otherwise time is up and the timer stops. */
    method UpdateTimer()
      requires Valid()
      modifies this
      ensures Valid() && maze == old(maze) && path == old(path)
      ensures old(timeRemaining) > 0 ==> AllFields() == old(AllFields()).(timeRemaining := old(timeRemaining) - 1)
      ensures old(timeRemaining) <= 0 ==>
                status == NextStatus(old(status), TimerExpired) &&
                AllFields() == old(AllFields()).(status := TimeUp, isTimerActive := false)
    {
      if timeRemaining <= 0 {
        status := TimeUp;
        StopTimer();
        return;
      }
      timeRemaining := timeRemaining - 1;
    }

    /**
     * A move from one cell to another at time `now`. Only a playing game counts
     * it; it is correct exactly when both cells are numbered and the path
     * accepts the connection, and a move that finishes the path completes
     * the game. The maze never changes: both ends are numbered cells.
     */
    method MakeMove(from: Position, to: Position, now: int) returns (ok: bool)
      requires Valid()
      modifies this, path, maze.cells
      ensures Valid() && maze == old(maze) && path == old(path)
      ensures unchanged(maze.cells) && maze.numberedCells == old(maze.numberedCells)
      ensures old(status) != Playing ==> !ok && AllFields() == old(AllFields()) && path.State() == old(path.State())
      ensures ok <==> old(status) == Playing && MoveConnection(maze, from, to).Some? &&
                      AddAccepted(old(path.State()), MoveConnection(maze, from, to).value)
      ensures ok ==> path.State() == AfterAdd(old(path.State()), MoveConnection(maze, from, to).value)
      ensures !ok ==> path.State() == old(path.State())
      ensures old(status) == Playing && !ok ==>
                AllFields() == old(AllFields()).(totalMoves := old(totalMoves) + 1, wrongMoves := old(wrongMoves) + 1)
      ensures ok && path.IsComplete() ==>
                AllFields() == old(AllFields()).(status := Completed, isTimerActive := false,
                                                 totalMoves := old(totalMoves) + 1, correctMoves := old(correctMoves) + 1,
                                                 score := ScoreAt(old(AllFields()).(totalMoves := old(totalMoves) + 1,
                                                                                    correctMoves := old(correctMoves) + 1), now))
      ensures ok && !path.IsComplete() ==>
                AllFields() == old(AllFields()).(totalMoves := old(totalMoves) + 1, correctMoves := old(correctMoves) + 1)
    {
      if status != Playing {
        return false;
      }
      var connection := MoveConnection(maze, from, to);
      ok := PlayMove(connection, now);
    }

    /** The rest of `MakeMove` once the game is known to be playing and the move has been read off the maze. */
    method PlayMove(connection: Option<PathConnection>, now: int) returns (ok: bool)
      requires Valid() && status == Playing
      requires connection.Some? ==> maze.IsValidPosition(connection.value.from) && maze.IsValidPosition(connection.value.to)
      requires connection.Some? ==> maze.KindAt(connection.value.from).Numbered? && maze.KindAt(connection.value.to).Numbered?
      modifies this, path, maze.cells
      ensures Valid() && maze == old(maze) && path == old(path) && unchanged(maze.cells)
      ensures ok <==> connection.Some? && AddAccepted(old(path.State()), connection.value)
      ensures path.State() == if ok then AfterAdd(old(path.State()), connection.value) else old(path.State())
      ensures !ok ==> AllFields() == old(AllFields()).(totalMoves := old(totalMoves) + 1, wrongMoves := old(wrongMoves) + 1)
      ensures ok && path.IsComplete() ==>
                AllFields() == old(AllFields()).(status := Completed, isTimerActive := false,
                                                 totalMoves := old(totalMoves) + 1, correctMoves := old(correctMoves) + 1,
                                                 score := ScoreAt(old(AllFields()).(totalMoves := old(totalMoves) + 1,
                                                                                    correctMoves := old(correctMoves) + 1), now))
      ensures ok && !path.IsComplete() ==>
                AllFields() == old(AllFields()).(totalMoves := old(totalMoves) + 1, correctMoves := old(correctMoves) + 1)
    {
      // The source counts the move before looking at it; the counters do not
      // affect the path, so counting afterwards ends in the same state.
      if connection.None? {
        CountWrongMove();
        return false;
      }
      ok := Connect(maze, path, connection.value);
      if ok {
        CountCorrectMove(now);
      } else {
        CountWrongMove();
      }
    }

    /** Counts a rejected move. */
    method CountWrongMove()
      requires Valid()
      modifies this
      ensures Valid() && maze == old(maze) && path == old(path)
      ensures AllFields() == old(AllFields()).(totalMoves := old(totalMoves) + 1, wrongMoves := old(wrongMoves) + 1)
    {
      totalMoves := totalMoves + 1;
      wrongMoves := wrongMoves + 1;
    }

    /** Counts an accepted move and completes the game once the path is complete. */
    method CountCorrectMove(now: int)
      requires Valid() && status == Playing
      modifies this
      ensures Valid() && maze == old(maze) && path == old(path)
      ensures path.IsComplete() ==>
                AllFields() == old(AllFields()).(status := Completed, isTimerActive := false,
                                                 totalMoves := old(totalMoves) + 1, correctMoves := old(correctMoves) + 1,
                                                 score := ScoreAt(old(AllFields()).(totalMoves := old(totalMoves) + 1,
                                                                                    correctMoves := old(correctMoves) + 1), now))
      ensures !path.IsComplete() ==>
                AllFields() == old(AllFields()).(totalMoves := old(totalMoves) + 1, correctMoves := old(correctMoves) + 1)
    {
      totalMoves := totalMoves + 1;
      correctMoves := correctMoves + 1;
      if path.IsComplete() {
        CompleteGame(now);
      }
    }

    /** Seeds the path at a numbered cell of a playing game, as `GamePath.StartPath` allows. */
    method StartPath(position: Position) returns (ok: bool)
      requires Valid()
      modifies this, path, maze.cells
      ensures Valid() && maze == old(maze) && path == old(path)
      ensures unchanged(maze.cells) && maze.numberedCells == old(maze.numberedCells)
      ensures AllFields() == old(AllFields())
      ensures ok <==> old(status) == Playing && maze.IsValidPosition(position) && maze.KindAt(position).Numbered? &&
                      StartAccepted(old(path.State()), maze.KindAt(position).number)
      ensures ok ==> path.State() == AfterStart(old(path.State()), position)
      ensures !ok ==> path.State() == old(path.State())
    {
      if status != Playing {
        return false;
      }
      var cell := maze.CellAt(position);
      if cell.None? || cell.value.Number().None? {
        return false;
      }
      var number := cell.value.Number().value;
      ghost var before := path.State();
      ok := path.StartPath(position, number);
      if ok {
        StartPreservesWellFormed(before, number, position);
        maze.SetPath(position);
        return true;
      } else {
        return false;
      }
    }

    /**
     * Takes back the last connection of a playing game, as the intended undo
     * does. Its end is a numbered cell, so clearing its path mark changes
     * nothing in the maze.
     */
    method UndoLastMove() returns (ok: bool)
      requires Valid()
      modifies this, path, maze.cells
      ensures Valid() && maze == old(maze) && path == old(path)
      ensures unchanged(maze.cells) && maze.numberedCells == old(maze.numberedCells)
      ensures AllFields() == old(AllFields())
      ensures ok <==> old(status) == Playing && old(path.connections) != []
      ensures ok ==> path.State() == AfterRemove(old(path.State()))
      ensures !ok ==> path.State() == old(path.State())
    {
      if status != Playing {
        return false;
      }
      ghost var before := path.State();
      var lastConnection := path.RemoveLastConnection();
      if lastConnection.None? {
        return false;
      }
      RemovePreservesWellFormed(before);
      assert lastConnection.value.to in before.visited by {
        assert lastConnection.value == before.connections[|before.connections| - 1];
      }
      maze.ClearPath(lastConnection.value.to);
      return true;
    }

    /**
     * Spends a hint of a playing game that has one left and returns where
     * the next required number sits, highlighting that cell alone. The
     * hint is spent even when that number is not on the grid.
     */
    method UseHint() returns (r: Option<Position>)
      requires Valid()
      modifies this, maze.cells
      ensures Valid() && maze == old(maze) && path == old(path)
      ensures maze.numberedCells == old(maze.numberedCells)
      ensures old(status) != Playing || old(hintsRemaining) <= 0 ==>
                r == None && AllFields() == old(AllFields()) && unchanged(maze.cells)
      ensures old(status) == Playing && old(hintsRemaining) > 0 ==>
                && r == old(path.GetHintForNextMove(maze))
                && AllFields() == old(AllFields()).(hintsRemaining := old(hintsRemaining) - 1,
                                                    hintsUsed := old(hintsUsed) + 1)
      ensures r.Some? ==> forall row, col :: 0 <= row < maze.size && 0 <= col < maze.size ==>
                maze.cells[row, col] == old(maze.cells[row, col]).(isHighlighted := Position(row, col) == r.value)
      ensures r.None? ==> unchanged(maze.cells)
    {
      if status != Playing {
        return None;
      }
      if hintsRemaining <= 0 {
        return None;
      }
      hintsRemaining := hintsRemaining - 1;
      hintsUsed := hintsUsed + 1;
      var hintPosition := path.GetHintForNextMove(maze);
      if hintPosition.Some? {
        maze.ClearHighlights();
        maze.HighlightCell(hintPosition.value);
      }
      return hintPosition;
    }
  }
}
