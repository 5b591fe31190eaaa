# szmg puzzle core in Dafny

szmg is a numbered-path puzzle. A square grid holds the numbers 1 to `maxNumber` on some cells and obstacles on others, and the player must draw one path through adjacent cells (king moves, diagonals included) that visits the numbers in order. This project models the puzzle's core and proves properties of that model:

- `MazeModel` (`Maze.dfy`) covers positions and their eight-neighbour adjacency, cells and their kinds, the three difficulty presets and the game modes. It also has the `Maze` class: a fixed `array2` of cells plus the number-to-position index that `setCell` keeps.
- `PathModel` (`Path.dfy`) covers the player's path.
  - `PathState` is the value of a path's three fields. A pure function per operation gives the new value.
  - The invariant `WellFormed` is proved preserved by every operation.
  - The `GamePath` class has the source's mutating methods, each proved against those functions.
  - `PathStatistics` computes the score.
- `Generator` (`MazeGenerator.dfy`) is the maze generator:
  - placing the numbers corner-first, each next to the one before when a neighbouring cell is free, otherwise at the closest free cell;
  - obstacles kept only while the maze stays solvable;
  - breadth-first search between consecutive numbers, and the depth-first search for a whole solution;
  - the simplified fallback maze.
- `Levels` (`LevelLoader.dfy`) covers:
  - the level records;
  - building a maze from a stored level, where number keys parse as 64-bit integers and later entries overwrite earlier ones;
  - level and daily-challenge selection, with their fallbacks;
  - the case-insensitive difficulty names;
  - level validation, whose keys must be exactly 1..k;
  - per-level statistics and their stars.
- `Game` (`GameState.dfy`) is the game controller. Its status machine is proved once as a pure function, `NextStatus`. Each `GameState` method states its whole new state. The constructor establishes `Valid()` and every method except the private helpers `SetupGame`, `StartTimer` and `StopTimer` keeps it. `Valid()` says the path is well formed and runs over numbered cells only, the hint counters add up to three, and the timer runs only while a timed game is playing.

The clock enters as a parameter `now` in whole seconds. Random choices (start corner, obstacle order, fallback obstacle cells) are left to the implementation and specified by what every choice satisfies.

Two consequences of the source show up in the contracts:

- `maze.setPath` only changes empty cells, and every cell a path touches is numbered. So marking and unmarking the path leaves the grid unchanged (`Game.Connect`, `Game.GameState.UndoLastMove`).
- In a loaded level, an obstacle written over a numbered cell leaves the number index pointing at that obstacle (`Levels.ObstacleLeavesStaleIndex`).

## Model

| member | source | states |
|---|---|---|
| MazeModel.Position.AdjacentPositions | szmg/Models/Maze.swift:29-40 | exactly eight neighbours, listed in row-major order, and a position is in the list iff it is adjacent |
| MazeModel.Position.IsAdjacent | szmg/Models/Maze.swift:43-47 | adjacent iff row and column each differ by at most one and the positions differ |
| MazeModel.AdjacencyIrreflexiveSymmetric | szmg/Models/Maze.swift:43-47 | no position is adjacent to itself; adjacency is symmetric |
| MazeModel.MazeCell.Number | szmg/Models/Maze.swift:69-74 | a number is present iff the cell is numbered, and it is that cell's number |
| MazeModel.MazeCell.IsTraversable | szmg/Models/Maze.swift:76-83 | traversable iff not an obstacle; every numbered cell is traversable |
| MazeModel.PresetsFit | szmg/Models/Maze.swift:92-106 | every preset has at least two numbers, and the number cells fill at most half the grid |
| MazeModel.Maze.constructor | szmg/Models/Maze.swift:141-152 | a size-by-size grid of empty, unhighlighted, unselected cells, each carrying its own position, with an empty number index |
| MazeModel.Maze.CellAt | szmg/Models/Maze.swift:155-158 | no cell out of bounds; in bounds, the stored cell, whose position is the one asked for |
| MazeModel.Maze.SetCell | szmg/Models/Maze.swift:160-168 | in bounds only that cell's kind changes; a numbered kind also records its position in the index; out of bounds nothing changes |
| MazeModel.Maze.HighlightCell | szmg/Models/Maze.swift:176-179 | highlights only the given in-bounds cell |
| MazeModel.Maze.ClearHighlights | szmg/Models/Maze.swift:181-187 | every cell unhighlighted, nothing else changed |
| MazeModel.Maze.SelectCell | szmg/Models/Maze.swift:189-193 | in bounds: exactly the given cell is selected; out of bounds: nothing changes |
| MazeModel.Maze.ClearSelections | szmg/Models/Maze.swift:195-201 | every cell unselected, nothing else changed |
| MazeModel.Maze.SetPath | szmg/Models/Maze.swift:204-209 | only an in-bounds empty cell becomes a path cell; otherwise the grid is unchanged |
| MazeModel.Maze.ClearPath | szmg/Models/Maze.swift:211-216 | only an in-bounds path cell becomes empty; otherwise the grid is unchanged |
| MazeModel.Maze.ClearAllPaths | szmg/Models/Maze.swift:218-226 | every path cell becomes empty, every other cell is kept, and no path cell remains |
| MazeModel.Maze.GetAllNumberedPositions | szmg/Models/Maze.swift:229-235 | one position per indexed number, containing exactly the indexed positions; when no two numbers share a cell, entry i is the cell of the i-th smallest number |
| MazeModel.Maze.GetEmptyPositions | szmg/Models/Maze.swift:237-247 | exactly the in-bounds empty cells, in row-major order |
| PathModel.PathConnection.IsValid | szmg/Models/Path.swift:24-26 | a valid connection joins two distinct cells and goes up in number |
| PathModel.ClearedWellFormed | szmg/Models/Path.swift:31-39 | the empty path (no connections, nothing visited, next number 1) satisfies the path invariant |
| PathModel.AddNeedsConsecutiveAdjacent | szmg/Models/Path.swift:42-48 | an accepted connection joins consecutive numbers on adjacent cells |
| PathModel.AddPreservesWellFormed | szmg/Models/Path.swift:42-56 | adding an accepted connection keeps the invariant: valid links, each link's from-number the previous link's to-number, next number one past the last, every end visited, no cell entered twice |
| PathModel.StartPreservesWellFormed | szmg/Models/Path.swift:58-66 | seeding the path keeps the invariant |
| PathModel.RemovePreservesWellFormed | szmg/Models/Path.swift:68-75 | removing the last connection with the intended next number keeps the invariant |
| PathModel.AddThenRemoveRestores | szmg/Models/Path.swift:68-75 | with the intended next number, removing a connection just added from a visited cell restores the path exactly |
| PathModel.AddThenRemoveAsWrittenLosesOne | szmg/Models/Path.swift:72 | as written, add-then-remove leaves the next number one below where it started |
| PathModel.UndoAsWrittenStrandsPath | szmg/Models/Path.swift:68-75 | as written, starting at 1, connecting 1 to 2 and undoing leaves a state from which no start is accepted and every accepted connection would have to come from the number 0 |
| PathModel.PathStatistics.Score | szmg/Models/Path.swift:191-196 | never negative; zero or exactly ten per correct move plus the time bonus (300 s minus elapsed, 0 from 300 s on) minus five per hint, so the maximum of 0 and that sum |
| PathModel.ScoreExample | szmg/Models/Path.swift:191-196 | 10 correct moves, 2 hints and 50 s score 340 |
| PathModel.ScoreMonotone | szmg/Models/Path.swift:191-196 | more correct moves, fewer hints and less time never lower the score |
| PathModel.GamePath.constructor | szmg/Models/Path.swift:37-39 | a new path is the empty path for the given last number |
| PathModel.GamePath.AddConnection | szmg/Models/Path.swift:42-56 | accepted iff the step is valid, starts at the next number minus one, ends at the next number and enters an unvisited cell; then appends the link, visits both ends and advances the number; otherwise nothing changes |
| PathModel.GamePath.StartPath | szmg/Models/Path.swift:58-66 | accepted iff nothing is visited yet and the number is the one required; then visits the cell and advances; otherwise nothing changes |
| PathModel.GamePath.RemoveLastConnection | szmg/Models/Path.swift:68-75 | nothing on an empty path; otherwise returns the last connection and leaves the path as before it was added, using the intended next number |
| PathModel.GamePath.Clear | szmg/Models/Path.swift:77-81 | back to the empty path |
| PathModel.GamePath.IsComplete | szmg/Models/Path.swift:84-86 | on a well-formed path with connections: complete iff its last connection reaches the last number; on a path never started: complete iff there are no numbers; on a path seeded at one cell: complete iff the last number is below 2 |
| PathModel.GamePath.CanConnectTo | szmg/Models/Path.swift:88-96 | true exactly when adding the step from the given cell between the current numbers would be accepted |
| PathModel.GamePath.GetLastPosition | szmg/Models/Path.swift:111-113 | absent iff there are no connections, else the end of the last connection |
| PathModel.GamePath.GetAllPathPositions | szmg/Models/Path.swift:115-122 | empty for an empty path, else the first start followed by every connection's end, in order |
| PathModel.GamePath.GetConnectionsForPosition | szmg/Models/Path.swift:124-126 | exactly the connections that start or end at the position, each once, in path order |
| PathModel.GamePath.ValidatePath | szmg/Models/Path.swift:129-151 | true iff every link is valid, lies on open in-bounds cells with matching numbers, and each link starts where the previous ended |
| PathModel.GamePath.HasValidNextMove | szmg/Models/Path.swift:153-158 | true iff the next number is placed, adjacent to the given cell and not yet visited |
| PathModel.GamePath.GetHintForNextMove | szmg/Models/Path.swift:161-164 | the position of the next required number, absent iff that number is not placed |
| PathModel.GamePath.GetPossibleNextPositions | szmg/Models/Path.swift:166-175 | exactly the adjacent open unvisited cells, in row-major order |
| Generator.FindPathBFS | szmg/Utils/MazeGenerator.swift:197-224 | a returned walk starts and ends where asked, steps between adjacent open cells, never repeats a cell and avoids the excluded set except at its start |
| Generator.EnqueueNeighbours | szmg/Utils/MazeGenerator.swift:210-220 | every queued walk still has that shape; visited only grows, and it grows whenever the queue does |
| Generator.FindSolutionRecursive | szmg/Utils/MazeGenerator.swift:155-194 | past the last number the current path is the answer; a missing number or empty path has none; any answer extends the current path through every remaining number in order |
| Generator.FindSolution | szmg/Utils/MazeGenerator.swift:143-153 | no solution when 1 is not placed; any solution starts at 1 and threads every number in order over open adjacent cells |
| Generator.IsMazeSolvable | szmg/Utils/MazeGenerator.swift:138-141 | reported solvable only with such a solution |
| Generator.SolutionVisitsAllNumbers | szmg/Utils/MazeGenerator.swift:143-194 | a solution passes through the cell of every number from 1 to the last |
| Generator.SolutionMonotone | szmg/Utils/MazeGenerator.swift:120-133 | a solution stays a solution when cells are reopened, which is why removing a rejected obstacle is safe |
| Generator.ChainSegments | szmg/Utils/MazeGenerator.swift:177-190 | joining a search segment to the recursive answer extends the path through the current number |
| Generator.GetAllPositions | szmg/Utils/MazeGenerator.swift:252-260 | every grid position exactly once, in row-major order |
| Generator.GetGoodStartPosition | szmg/Utils/MazeGenerator.swift:60-68 | one of the four corners of the grid |
| Generator.ClosestIndex | szmg/Utils/MazeGenerator.swift:96-98 | a candidate at least as close to the previous number as every other, the first such in list order |
| Generator.FindBestPositionForNumber | szmg/Utils/MazeGenerator.swift:70-99 | absent iff there are no candidates; otherwise a candidate, adjacent to the previous number whenever one can be (and in bounds for the numbers up to 5), and otherwise the first closest one |
| Generator.PlaceNextNumber | szmg/Utils/MazeGenerator.swift:47-55 | placing the next number keeps the placement invariant: distinct in-bounds cells, the rest still available |
| Generator.StartPlaced | szmg/Utils/MazeGenerator.swift:41-44 | the start corner as number 1, with every other cell still available, satisfies that invariant |
| Generator.GenerateNumberedPositions | szmg/Utils/MazeGenerator.swift:37-58 | 1 sits at a corner, every key is in 1..max and in bounds, all of them are placed when the grid is large enough, and no two share a cell |
| Generator.PlaceNumbers | szmg/Utils/MazeGenerator.swift:20-22 | the maze's index and cells record exactly the in-bounds placed numbers |
| Generator.ObstacleCount | szmg/Utils/MazeGenerator.swift:105-108 | the floor of the free-cell count times the obstacle fraction |
| Generator.TryObstacle | szmg/Utils/MazeGenerator.swift:120-133 | the cell becomes an obstacle only if the maze stays solvable, and is empty otherwise; no other cell changes |
| Generator.GenerateObstacles | szmg/Utils/MazeGenerator.swift:102-135 | numbers untouched; at most three tries per obstacle and at most the obstacle count placed; a cell on the reserved list never changes, any other is kept or ends as an obstacle or as an empty cell; a solution exists whenever an obstacle was kept |
| Generator.PlaceObstacle | szmg/Utils/MazeGenerator.swift:243 | exactly that cell becomes an obstacle |
| Generator.SimplifiedGrid | szmg/Utils/MazeGenerator.swift:229-239 | a fresh grid with the numbers placed and every other cell available for an obstacle |
| Generator.AddRandomObstacle | szmg/Utils/MazeGenerator.swift:241-246 | at most one more obstacle, on an available cell that is then no longer available |
| Generator.GenerateSimplifiedMaze | szmg/Utils/MazeGenerator.swift:227-249 | the numbers as given (in bounds), at most max(1, 5 %) obstacles, distinct and on cells without a number; no cell is part of a path |
| Generator.NumberedMaze | szmg/Utils/MazeGenerator.swift:14-22 | a fresh maze of the preset's size whose index is the generated placement; every cell is empty or shows its number |
| Generator.AddObstacles | szmg/Utils/MazeGenerator.swift:24-25 | the number index is unchanged and every number still shows; at most three tries per obstacle and at most the obstacle count placed, counted over the cells free of numbers; a numbered cell never changes, any other is kept or ends as an obstacle or as an empty cell; a solution exists whenever an obstacle was kept |
| Generator.SimplifiedFallback | szmg/Utils/MazeGenerator.swift:28-31 | the simplified maze with the same numbers, every one showing; no cell is part of a path |
| Generator.GenerateMaze | szmg/Utils/MazeGenerator.swift:13-34 | the preset's size and numbers, each showing its number; every cell unhighlighted and unselected, and empty, an obstacle or a numbered cell; when reported solvable a solution exists, otherwise the simplified layout with at most max(1, 5 %) obstacles |
| Levels.ParseInt | szmg/Utils/LevelLoader.swift:111 | a parsed key is an optionally signed run of digits within the 64-bit range |
| Levels.ParseIntValue | szmg/Utils/LevelLoader.swift:111 | a run of digits, with an optional `+` or `-` in front, parses to its decimal value (leading zeros allowed) exactly when that value is within the 64-bit range, and to nothing otherwise |
| Levels.ParseIntSpellings | szmg/Utils/LevelLoader.swift:111 | "+7" and "007" read 7 and "-0" reads 0; the empty string, a lone sign, a trailing letter, a leading space and a doubled sign read nothing |
| Levels.ParseDecimal | szmg/Utils/LevelLoader.swift:111 | every 64-bit integer written in decimal parses back to itself |
| Levels.ApplyNumberEntry | szmg/Utils/LevelLoader.swift:110-115 | one more number entry keeps the maze equal to the built-from description |
| Levels.ApplyObstacle | szmg/Utils/LevelLoader.swift:118-121 | one more obstacle keeps it too |
| Levels.BuildMaze | szmg/Utils/LevelLoader.swift:106-124 | the maze's cells and index are those defined by the entries: the last in-bounds write to a cell wins, an obstacle beats any number, and each number is indexed at its last in-bounds entry |
| Levels.CreateMazeFromLevel | szmg/Utils/LevelLoader.swift:106-124 | a stored level builds exactly that maze |
| Levels.CreateMazeFromChallenge | szmg/Utils/LevelLoader.swift:126-144 | a daily challenge builds exactly that maze |
| Levels.IndexedNumberShows | szmg/Utils/LevelLoader.swift:110-115 | an entry not overwritten later, and not covered by an obstacle, appears in the built maze with its number at its cell |
| Levels.ObstacleLeavesStaleIndex | szmg/Utils/LevelLoader.swift:110-121 | a number whose cell is later covered by an obstacle is still indexed there, but the cell is an obstacle |
| Levels.DroppedEntriesNotIndexed | szmg/Utils/LevelLoader.swift:110-115 | a number all of whose entries are out of bounds is not indexed |
| Levels.FirstWhere | szmg/Utils/LevelLoader.swift:79 | the first index whose element satisfies the test, absent iff none does |
| Levels.SelectLevel | szmg/Utils/LevelLoader.swift:79 | absent iff there are no levels; a matching level whenever one exists, else the last |
| Levels.SelectLevelPicksFirst | szmg/Utils/LevelLoader.swift:79 | the first matching level is the one chosen |
| Levels.SelectDaily | szmg/Utils/LevelLoader.swift:97 | absent iff there are no challenges; a matching date whenever one exists, else the first challenge |
| Levels.SelectDailyPicksFirst | szmg/Utils/LevelLoader.swift:97 | among challenges with the same date, the first one is chosen |
| Levels.DifficultyFromRaw | szmg/Utils/LevelLoader.swift:101 | the difficulty whose name is exactly the string, if any |
| Levels.DifficultyFromName | szmg/Utils/LevelLoader.swift:101 | the difficulty whose name is the capitalised string, or Medium when no difficulty has that name |
| Levels.CapitalizedMatches | szmg/Utils/LevelLoader.swift:101 | capitalizing a string yields a capitalized lower-case word iff the string lower-cases to that word |
| Levels.DifficultyNameCaseInsensitive | szmg/Utils/LevelLoader.swift:101 | a challenge's difficulty is Easy or Hard exactly when its name is "easy" or "hard" in any letter case, and Medium otherwise |
| Levels.RawValueRoundTrip | szmg/Utils/LevelLoader.swift:101 | every difficulty's name reads back as that difficulty |
| Levels.LoadLevel | szmg/Utils/LevelLoader.swift:65-87 | nothing without loaded data; the selected stored level when there is one, else a generated maze of the preset's size |
| Levels.LoadDailyChallenge | szmg/Utils/LevelLoader.swift:89-103 | nothing without data or challenges; otherwise the selected challenge at its named difficulty |
| Levels.ValidateLevel | szmg/Utils/LevelLoader.swift:186-211 | valid iff every number and obstacle is in bounds and the parsed keys are exactly 1..k |
| Levels.KeysSequential | szmg/Utils/LevelLoader.swift:202-208 | true iff the parsed keys are a permutation of 1..k |
| Levels.ReadsOneToK | szmg/Utils/LevelLoader.swift:204-208 | true iff the i-th element is i + 1 for every i |
| Levels.Sort | szmg/Utils/LevelLoader.swift:203 | an ascending permutation of its input |
| Levels.SortedPermutationIsOneToK | szmg/Utils/LevelLoader.swift:203-208 | the sorted keys read 1, 2, …, k iff the keys are a permutation of 1..k |
| Levels.DuplicateKeysInvalid | szmg/Utils/LevelLoader.swift:202-208 | a repeated key makes a level invalid |
| Levels.NewLevelStatistics | szmg/Utils/LevelLoader.swift:246-254 | fresh statistics: no time, score, attempts or stars, not completed |
| Levels.LevelStatistics.UpdateWithCompletion | szmg/Utils/LevelLoader.swift:256-270 | one more attempt, completed, the best time (0 meaning none) and best score, and stars for the new run between 1 and 3 |
| Levels.StarsFor | szmg/Utils/LevelLoader.swift:272-283 | from 0 to 3: three exactly at score 800 within 60 s; two exactly at score 600 within 120 s short of that; one exactly for a completed run short of two; none otherwise |
| Levels.StarsMonotone | szmg/Utils/LevelLoader.swift:272-283 | a faster or higher-scoring run never earns fewer stars |
| Levels.AfterRunsKeepsBest | szmg/Utils/LevelLoader.swift:256-266 | after any sequence of runs the best score is the maximum and the attempts are counted; when every run's time is positive, the best time is the minimum, with 0 read as no time yet |
| Levels.FreshStatisticsAfterRuns | szmg/Utils/LevelLoader.swift:246-270 | from fresh statistics, runs give the fastest time, the highest score and a completed level with 1 to 3 stars |
| Levels.AfterRunsCompleted | szmg/Utils/LevelLoader.swift:256-270 | once a level is completed, it stays completed with 1 to 3 stars |
| Game.NextStatus | szmg/Models/GameState.swift:80-126 | each event either leaves the status alone or moves to its own status; playing is entered only by start from not-started or failed or by resume from paused, paused only by pause from playing; a completed or timed-up game ignores start, pause and resume; and each of those three moves when it is allowed |
| Game.ForcedEventsIgnoreStatus | szmg/Models/GameState.swift:106-126 | restart, complete, fail and time-up lead to the same status from every status, and never to playing or paused |
| Game.EventsIdempotent | szmg/Models/GameState.swift:80-126 | applying the same event twice is the same as applying it once |
| Game.FinishedStaysFinished | szmg/Models/GameState.swift:80-104 | a completed or timed-up game ignores start, pause and resume, and restart clears it |
| Game.PauseResumeRoundTrip | szmg/Models/GameState.swift:91-104 | pause then resume returns a playing game to playing and leaves other statuses alone |
| Game.MoveConnection | szmg/Models/GameState.swift:161-171 | a connection exists iff both cells are in bounds and numbered, and it carries their positions and numbers |
| Game.MoveAcceptedMeans | szmg/Models/GameState.swift:161-174 | a move is accepted iff it goes from the cell of the current number minus one to the adjacent, unvisited cell of the current number |
| Game.Connect | szmg/Models/GameState.swift:174-177 | the path is extended exactly as the path rule says; marking numbered cells as path leaves the grid unchanged |
| Game.GameState.constructor | szmg/Models/GameState.swift:46-59 | a not-started game with an empty maze of the preset's size, an empty path, three hints and the mode's time limit |
| Game.GameState.SetupGame | szmg/Models/GameState.swift:62-77 | moves, wrong and correct moves, score and hints used reset to zero, hints remaining to three, and in a timed mode the time left to the mode's limit; the maze, the path, the status and the timer flag are kept |
| Game.GameState.StartTimer | szmg/Models/GameState.swift:129-136 | the timer runs only in a timed mode |
| Game.GameState.StopTimer | szmg/Models/GameState.swift:138-142 | the timer is off, nothing else changes |
| Game.GameState.StartGame | szmg/Models/GameState.swift:80-89 | from not-started or failed: playing, started at `now`, timer on in a timed mode; from any other status nothing changes |
| Game.GameState.PauseGame | szmg/Models/GameState.swift:91-95 | a playing game pauses and its timer stops; otherwise nothing changes |
| Game.GameState.ResumeGame | szmg/Models/GameState.swift:97-104 | a paused game plays again with its timer restarted in a timed mode; otherwise nothing changes |
| Game.GameState.RestartGame | szmg/Models/GameState.swift:106-114 | not started, path cleared, path cells emptied, counters and timer reset |
| Game.GameState.FinalScore | szmg/Models/GameState.swift:238-249 | never negative; for a started game, the score of the current counters with the seconds elapsed since the start |
| Game.GameState.CompleteGame | szmg/Models/GameState.swift:116-121 | completed, timer stopped, score set to the final score |
| Game.GameState.FailGame | szmg/Models/GameState.swift:123-126 | failed, timer stopped |
| Game.GameState.UpdateTimer | szmg/Models/GameState.swift:144-152 | one second less while time remains; at zero, time-up with the timer stopped |
| Game.GameState.MakeMove | szmg/Models/GameState.swift:155-189 | refused unless playing; otherwise counted, accepted iff the path rule accepts the numbered connection; correct or wrong counted accordingly; complete when the path is |
| Game.GameState.PlayMove | szmg/Models/GameState.swift:158-188 | the counted part of a move of a playing game |
| Game.GameState.CountWrongMove | szmg/Models/GameState.swift:158-166 | one more move and one more wrong move |
| Game.GameState.CountCorrectMove | szmg/Models/GameState.swift:175-182 | one more move and one more correct move, then completion with the final score if the path is complete |
| Game.GameState.StartPath | szmg/Models/GameState.swift:191-207 | accepted iff playing, the cell is numbered and the path accepts that number; the grid is unchanged |
| Game.GameState.UndoLastMove | szmg/Models/GameState.swift:209-215 | accepted iff playing with a non-empty path; removes the last connection (intended next number); the grid is unchanged |
| Game.GameState.UseHint | szmg/Models/GameState.swift:218-235 | nothing unless playing with a hint left; otherwise one hint used and the next number's position returned, with only that cell highlighted |

## Left out

- Persistence is not modelled: `saveProgress`, `getLevelStatistics` and `saveLevelStatistics` write to user defaults.
- Loading JSON from the app bundle is not modelled. Neither is the `LevelLoader` singleton. The decoded container is a parameter, absent when decoding failed.
- `getAvailableLevels`, `hasDailyChallengeForDate` and `getDailyChallengeInfo` are not modelled. They are thin queries over the decoded container.
- `generatePresetLevel` and `generateDailyChallenge` are not modelled. They return the loaded preset or today's challenge from the `LevelLoader` singleton and fall back to `generateMaze`, at Medium for the daily challenge.
- Timers and dates are not modelled. The scheduled one-second timer is replaced by explicit calls to `UpdateTimer`. `Date` becomes whole seconds passed as `now`. Formatting a date into `yyyy-MM-dd` is replaced by a date string parameter.
- Floating point is not modelled. Elapsed time is whole seconds. Obstacle fractions are whole percentages, with the same rounding down as `Int(Double(...) * fraction)`. Closest-position search compares squared distances, which picks the same position as the square root. `PathStatistics.accuracy` is not modelled.
- Dictionary iteration order is an input. The number entries of a level are a sequence in the order the decoder yields them.
- Randomness is not modelled. Each random pick (`randomElement`) is a nondeterministic choice from the candidate list, and the contracts hold for every choice.
- `FindPathBFS` is proved sound only: every returned walk is a correct segment. It is not proved to find a walk whenever one exists, nor a shortest one.
- The string methods `capitalized` and `lowercased` are modelled on ASCII letters only.
- `getElapsedTime`, `getFormattedTime`, `GameState.getNextRequiredNumber` and `GameState.isPositionInPath` are not modelled. They are display wrappers.
- `PathModel.GamePath.GetNextRequiredNumber`, `PathModel.GamePath.IsPositionInPath` and `PathModel.GamePath.GetPathLength` are field reads with no contract of their own.
- The view-model layer that swaps in a new maze is not part of this model. The game state keeps its maze for its lifetime.
- PathModel.GamePath.ValidatePath: requires a non-empty path. The source's `1..<connections.count` range traps on an empty one.
- Levels.CreateMazeFromLevel: requires a non-negative size, as do `CreateMazeFromChallenge`, `LoadLevel` and `LoadDailyChallenge` for the level they select. A negative size makes the source's grid allocation trap.
- Levels.LevelStatistics.UpdateWithCompletion: is a function returning the updated record instead of a mutating method. The record is a value type in the source.
- Game.GameState.MakeMove: counts the move after asking the path rather than before. No step in between reads the counters, so the final state is the same.
- Game.GameState.UndoLastMove: uses the corrected next number rather than the one Path.swift line 72 writes (see Findings).
- PathModel.GamePath.RemoveLastConnection: uses the corrected next number (see Findings); `PathModel.AfterRemoveAsWritten` is the code as written.
- MazeModel.Maze.GetAllNumberedPositions: when two numbers share a cell, the source orders the copies by whichever key its dictionary search finds first. A loaded level can index two keys at one cell. The model lists the cells in key order and promises only length and membership in that case.
- PathModel.GamePath.IsComplete: says nothing about a path that has no connections yet has visited cells, other than a freshly seeded one (for example after the as-written undo of Findings).
- Levels.AfterRunsKeepsBest: does not describe the best time when some run took 0 seconds or less. A run of 0 seconds sets the best time to 0, which the next run's `bestTime == 0` test reads as no time yet.
- Levels.LevelStatistics.CalculateStars: has no contract of its own. It passes the record's completed flag to `Levels.StarsFor`, which carries the star rules.
- `MazeCell.isNumbered`, `Maze.isValidPosition`, the `Difficulty` presets (`rawValue`, `gridSize`, `maxNumber`, `obstaclePercentage`), `GameMode.hasTimeLimit`, `GameMode.timeLimitSeconds` and `GameState.canMakeMove` are one-line definitions with no contract of their own: `MazeModel.MazeCell.IsNumbered`, `MazeModel.Maze.IsValidPosition`, `MazeModel.Difficulty.RawValue`, `MazeModel.Difficulty.GridSize`, `MazeModel.Difficulty.MaxNumber`, `MazeModel.Difficulty.ObstaclePercent`, `MazeModel.GameMode.HasTimeLimit`, `MazeModel.GameMode.TimeLimitSeconds` and `Game.GameState.CanMakeMove`. They copy the source's constants and tests, which `PresetsFit` and the other members' contracts use.

## Findings

| source | as written | input that shows it | evidently intended | confidence | as-written member | corrected member |
|---|---|---|---|---|---|---|
| szmg/Models/Path.swift:72 | after removing the last connection, the next required number becomes that connection's `fromNumber` | start the path at p1 with number 1, connect 1→2 to an adjacent p2, undo: the next number is 1 while p1 stays visited and there are no connections, so `startPath` (needs nothing visited) and every connection except one from number 0 are refused from then on | `toNumber`, the number the removed connection had reached, so undoing restores the state before the move | not executed | PathModel.UndoAsWrittenStrandsPath | PathModel.AddThenRemoveRestores |
