// Building mazes from decoded level records, the preset and daily-challenge
// selection rules, level validation and per-level statistics.

module Levels {
  import opened Wrappers
  import opened MazeModel
  import Generator

  // ---------------------------------------------------------------------
  // Decoded records
  // ---------------------------------------------------------------------

  datatype PositionData = PositionData(row: int, col: int) {
    function ToPosition(): Position {
      Position(row, col)
    }
  }

  /**
   * The `numbers` dictionary is given as its entries in iteration order;
   * the source iterates a dictionary, whose order the model takes as given.
   */
  type NumberEntries = seq<(string, PositionData)>

  datatype LevelData = LevelData(level: int, size: int, numbers: NumberEntries, obstacles: seq<PositionData>)

  datatype DailyChallengeData = DailyChallengeData(date: string, difficulty: string, size: int,
                                                   numbers: NumberEntries, obstacles: seq<PositionData>)

  datatype LevelsContainer = LevelsContainer(easyLevels: seq<LevelData>, mediumLevels: seq<LevelData>,
                                             hardLevels: seq<LevelData>,
                                             dailyChallenges: seq<DailyChallengeData>)

  function LevelsFor(container: LevelsContainer, difficulty: Difficulty): seq<LevelData> {
    match difficulty
    case Easy => container.easyLevels
    case Medium => container.mediumLevels
    case Hard => container.hardLevels
  }

  // ---------------------------------------------------------------------
  // Integer parsing of dictionary keys
  // ---------------------------------------------------------------------

  /** The range of the platform's 64-bit `Int`. */
  const IntMin: int := -0x8000_0000_0000_0000
  const IntMax: int := 0x7FFF_FFFF_FFFF_FFFF

  predicate IsDigit(c: char) {
    '0' <= c <= '9'
  }

  predicate AllDigits(s: string) {
    forall i :: 0 <= i < |s| ==> IsDigit(s[i])
  }

  /** The value of a string of decimal digits, most significant first. */
  function DigitsValue(s: string): nat
    requires AllDigits(s)
  {
    if s == [] then 0 else DigitsValue(s[..|s| - 1]) * 10 + (s[|s| - 1] as int - '0' as int)
  }

  /**
   * Decimal integer parsing: an optional `+` or `-`, then one or more
   * digits, and nothing else; a value outside the 64-bit range is rejected.
   */
  function ParseInt(s: string): (r: Option<int>)
    ensures r.Some? ==> IntMin <= r.value <= IntMax
    ensures r.Some? ==> s != [] && AllDigits(if s[0] == '+' || s[0] == '-' then s[1..] else s)
  {
    var signed := |s| > 0 && (s[0] == '+' || s[0] == '-');
    var digits := if signed then s[1..] else s;
    if digits == [] || !AllDigits(digits) then None
    else
      var v: int := if |s| > 0 && s[0] == '-' then -(DigitsValue(digits) as int) else DigitsValue(digits);
      if IntMin <= v <= IntMax then Some(v) else None
  }

  /** The decimal spelling of a natural number, without leading zeros. */
  function Decimal(n: nat): (s: string)
    ensures s != [] && AllDigits(s)
  {
    var d := ['0' + (n % 10) as char];
    if n < 10 then d else Decimal(n / 10) + d
  }

  lemma {:induction false} DecimalValue(n: nat)
    ensures DigitsValue(Decimal(n)) == n
  {
    var d := ['0' + (n % 10) as char];
    if n >= 10 {
      DecimalValue(n / 10);
      var s := Decimal(n);
      assert s == Decimal(n / 10) + d;
      assert s[..|s| - 1] == Decimal(n / 10);
    }
  }

  /** Keys spelled as decimals parse back to their value, with either sign. */
  lemma ParseDecimal(n: int)
    requires IntMin <= n <= IntMax
    ensures n >= 0 ==> ParseInt(Decimal(n)) == Some(n)
    ensures n < 0 ==> ParseInt("-" + Decimal(-n)) == Some(n)
  {
    if n >= 0 {
      DecimalValue(n);
    } else {
      DecimalValue(-n);
      assert ("-" + Decimal(-n))[1..] == Decimal(-n);
    }
  }

  /**
   * Every well-formed key parses to its value when that fits in 64 bits:
   * bare digits, `+` then digits, or `-` then digits.
   */
  lemma ParseIntValue(s: string)
    ensures s != [] && AllDigits(s) ==>
              ParseInt(s) == if DigitsValue(s) <= IntMax then Some(DigitsValue(s) as int) else None
    ensures |s| > 1 && s[0] == '+' && AllDigits(s[1..]) ==>
              ParseInt(s) == if DigitsValue(s[1..]) <= IntMax then Some(DigitsValue(s[1..]) as int) else None
    ensures |s| > 1 && s[0] == '-' && AllDigits(s[1..]) ==>
              ParseInt(s) == if IntMin <= -(DigitsValue(s[1..]) as int) then Some(-(DigitsValue(s[1..]) as int)) else None
  {
  }

  /** Leading signs and zeros are accepted; a bare sign, an empty key and stray characters are not. */
  lemma ParseIntSpellings()
    ensures ParseInt("+7") == Some(7) && ParseInt("007") == Some(7) && ParseInt("-0") == Some(0)
    ensures ParseInt("") == None && ParseInt("-") == None && ParseInt("+") == None
    ensures ParseInt("7a") == None && ParseInt(" 7") == None && ParseInt("--7") == None
  {
    assert DigitsValue("7") == 7;
    assert DigitsValue("007") == 7 by {
      assert "007"[..2] == "00" && "00"[..1] == "0";
    }
    assert DigitsValue("0") == 0;
    assert !AllDigits("7a") by { assert !IsDigit("7a"[1]); }
    assert !AllDigits(" 7") by { assert !IsDigit(" 7"[0]); }
    assert !AllDigits("-7") by { assert !IsDigit("-7"[0]); }
  }

  // ---------------------------------------------------------------------
  // Building a maze from a record
  // ---------------------------------------------------------------------

  predicate InBounds(size: int, pd: PositionData) {
    0 <= pd.row < size && 0 <= pd.col < size
  }

  /** Whether the number loop writes entry `e` at position `p`. */
  predicate WritesAt(e: (string, PositionData), p: Position) {
    ParseInt(e.0).Some? && e.1.ToPosition() == p
  }

  /** Whether the number loop indexes entry `e` under number `n`. */
  predicate IndexesAs(size: int, e: (string, PositionData), n: int) {
    ParseInt(e.0) == Some(n) && InBounds(size, e.1)
  }

  /** The last entry whose key parses and whose position is `p`. */
  function LastWriterAt(numbers: NumberEntries, p: Position): (r: Option<nat>)
    ensures r.Some? ==> r.value < |numbers| && WritesAt(numbers[r.value], p) &&
                        forall j :: r.value < j < |numbers| ==> !WritesAt(numbers[j], p)
    ensures r.None? ==> forall j :: 0 <= j < |numbers| ==> !WritesAt(numbers[j], p)
  {
    if numbers == [] then None
    else if WritesAt(numbers[|numbers| - 1], p) then Some(|numbers| - 1)
    else LastWriterAt(numbers[..|numbers| - 1], p)
  }

  /** The last in-bounds entry whose key parses to `n`. */
  function LastIndexedAs(size: int, numbers: NumberEntries, n: int): (r: Option<nat>)
    ensures r.Some? ==> r.value < |numbers| && IndexesAs(size, numbers[r.value], n) &&
                        forall j :: r.value < j < |numbers| ==> !IndexesAs(size, numbers[j], n)
    ensures r.None? ==> forall j :: 0 <= j < |numbers| ==> !IndexesAs(size, numbers[j], n)
  {
    if numbers == [] then None
    else if IndexesAs(size, numbers[|numbers| - 1], n) then Some(|numbers| - 1)
    else LastIndexedAs(size, numbers[..|numbers| - 1], n)
  }

  /** The kind the number loop leaves at `p`: the last number written there, else Empty. */
  function NumberKind(numbers: NumberEntries, p: Position): CellType {
    match LastWriterAt(numbers, p)
    case None => Empty
    case Some(i) => Numbered(ParseInt(numbers[i].0).value)
  }

  function Positions(obstacles: seq<PositionData>): (r: seq<Position>)
    ensures |r| == |obstacles| && forall i :: 0 <= i < |r| ==> r[i] == obstacles[i].ToPosition()
  {
    seq(|obstacles|, i requires 0 <= i < |obstacles| => obstacles[i].ToPosition())
  }

  /** The kind a record gives `p`: an obstacle wins over any number. */
  function LevelKind(numbers: NumberEntries, obstacles: seq<PositionData>, p: Position): CellType {
    if p in Positions(obstacles) then Obstacle else NumberKind(numbers, p)
  }

  /** The index entry a record gives number `n`, if any. */
  function IndexedPosition(size: int, numbers: NumberEntries, n: int): Option<Position> {
    match LastIndexedAs(size, numbers, n)
    case None => None
    case Some(i) => Some(numbers[i].1.ToPosition())
  }

  /** `maze` holds exactly what a record with these contents describes. */
  ghost predicate BuiltFrom(maze: Maze, size: int, numbers: NumberEntries, obstacles: seq<PositionData>)
    reads maze, maze.cells
  {
    && maze.Valid()
    && maze.size == size
    && (forall n :: n in maze.numberedCells <==> IndexedPosition(size, numbers, n).Some?)
    && (forall n :: n in maze.numberedCells ==> Some(maze.numberedCells[n]) == IndexedPosition(size, numbers, n))
    && (forall r, c :: 0 <= r < size && 0 <= c < size ==>
          maze.cells[r, c] == MazeCell(Position(r, c), LevelKind(numbers, obstacles, Position(r, c)), false, false))
  }

  lemma WriterStep(numbers: NumberEntries, e: (string, PositionData))
    ensures forall p :: NumberKind(numbers + [e], p) ==
              if WritesAt(e, p) then Numbered(ParseInt(e.0).value) else NumberKind(numbers, p)
  {
    assert (numbers + [e])[..|numbers|] == numbers;
    forall p
      ensures NumberKind(numbers + [e], p) ==
                if WritesAt(e, p) then Numbered(ParseInt(e.0).value) else NumberKind(numbers, p)
    {
      var w := LastWriterAt(numbers, p);
      if w.Some? {
        assert (numbers + [e])[w.value] == numbers[w.value];
      }
    }
  }

  lemma IndexStep(size: int, numbers: NumberEntries, e: (string, PositionData))
    ensures forall n :: IndexedPosition(size, numbers + [e], n) ==
              if IndexesAs(size, e, n) then Some(e.1.ToPosition()) else IndexedPosition(size, numbers, n)
  {
    assert (numbers + [e])[..|numbers|] == numbers;
    forall n
      ensures IndexedPosition(size, numbers + [e], n) ==
                if IndexesAs(size, e, n) then Some(e.1.ToPosition()) else IndexedPosition(size, numbers, n)
    {
      var w := LastIndexedAs(size, numbers, n);
      if w.Some? {
        assert (numbers + [e])[w.value] == numbers[w.value];
      }
    }
  }

  /** One more number entry applied through `setCell`. */
  method ApplyNumberEntry(maze: Maze, size: nat, numbers: NumberEntries, e: (string, PositionData))
    requires BuiltFrom(maze, size, numbers, [])
    modifies maze, maze.cells
    ensures BuiltFrom(maze, size, numbers + [e], [])
  {
    IndexStep(size, numbers, e);
    WriterStep(numbers, e);
    assert Positions([]) == [];
    var (numberString, positionData) := e;
    var number := ParseInt(numberString);
    if number.Some? {
      var p := positionData.ToPosition();
      maze.SetCell(p, Numbered(number.value));
      forall n
        ensures n in maze.numberedCells <==> IndexedPosition(size, numbers + [e], n).Some?
        ensures n in maze.numberedCells ==> Some(maze.numberedCells[n]) == IndexedPosition(size, numbers + [e], n)
      {
      }
      forall r, c | 0 <= r < size && 0 <= c < size
        ensures maze.cells[r, c] == MazeCell(Position(r, c), LevelKind(numbers + [e], [], Position(r, c)), false, false)
      {
      }
    }
  }

  /** One more obstacle applied through `setCell`. */
  method ApplyObstacle(maze: Maze, size: nat, numbers: NumberEntries, obstacles: seq<PositionData>, o: PositionData)
    requires BuiltFrom(maze, size, numbers, obstacles)
    modifies maze, maze.cells
    ensures BuiltFrom(maze, size, numbers, obstacles + [o])
  {
    assert Positions(obstacles + [o]) == Positions(obstacles) + [o.ToPosition()];
    maze.SetCell(o.ToPosition(), Obstacle);
  }

  /**
   * The shared body of both `createMaze` overloads: a fresh maze, then every
   * parsable key as a numbered cell, then every obstacle.
   */
  method BuildMaze(size: nat, difficulty: Difficulty, numbers: NumberEntries, obstacles: seq<PositionData>)
    returns (maze: Maze)
    ensures fresh(maze) && fresh(maze.cells)
    ensures maze.difficulty == difficulty && maze.maxNumber == difficulty.MaxNumber()
    ensures BuiltFrom(maze, size, numbers, obstacles)
  {
    maze := new Maze(size, difficulty);
    assert BuiltFrom(maze, size, numbers[..0], []);
    for i := 0 to |numbers|
      invariant fresh(maze.cells)
      invariant maze.difficulty == difficulty && maze.maxNumber == difficulty.MaxNumber()
      invariant BuiltFrom(maze, size, numbers[..i], [])
    {
      ApplyNumberEntry(maze, size, numbers[..i], numbers[i]);
      assert numbers[..i] + [numbers[i]] == numbers[..i + 1];
    }
    assert numbers[..|numbers|] == numbers;
    assert BuiltFrom(maze, size, numbers, obstacles[..0]);
    for i := 0 to |obstacles|
      invariant fresh(maze.cells)
      invariant maze.difficulty == difficulty && maze.maxNumber == difficulty.MaxNumber()
      invariant BuiltFrom(maze, size, numbers, obstacles[..i])
    {
      ApplyObstacle(maze, size, numbers, obstacles[..i], obstacles[i]);
      assert obstacles[..i] + [obstacles[i]] == obstacles[..i + 1];
    }
    assert obstacles[..|obstacles|] == obstacles;
  }

  method CreateMazeFromLevel(levelData: LevelData, difficulty: Difficulty) returns (maze: Maze)
    requires levelData.size >= 0
    ensures fresh(maze) && fresh(maze.cells)
    ensures maze.difficulty == difficulty && maze.maxNumber == difficulty.MaxNumber()
    ensures BuiltFrom(maze, levelData.size, levelData.numbers, levelData.obstacles)
  {
    maze := BuildMaze(levelData.size, difficulty, levelData.numbers, levelData.obstacles);
  }

  method CreateMazeFromChallenge(challengeData: DailyChallengeData, difficulty: Difficulty) returns (maze: Maze)
    requires challengeData.size >= 0
    ensures fresh(maze) && fresh(maze.cells)
    ensures maze.difficulty == difficulty && maze.maxNumber == difficulty.MaxNumber()
    ensures BuiltFrom(maze, challengeData.size, challengeData.numbers, challengeData.obstacles)
  {
    maze := BuildMaze(challengeData.size, difficulty, challengeData.numbers, challengeData.obstacles);
  }

  /**
   * An entry whose number is indexed last and whose cell nothing later
   * overwrites shows that number, and its index entry points at it.
   */
  lemma IndexedNumberShows(size: int, numbers: NumberEntries, obstacles: seq<PositionData>, i: nat)
    requires i < |numbers| && InBounds(size, numbers[i].1) && ParseInt(numbers[i].0).Some?
    requires forall j :: i < j < |numbers| ==> !WritesAt(numbers[j], numbers[i].1.ToPosition())
    requires forall j :: i < j < |numbers| ==> !IndexesAs(size, numbers[j], ParseInt(numbers[i].0).value)
    requires numbers[i].1.ToPosition() !in Positions(obstacles)
    ensures var n := ParseInt(numbers[i].0).value;
            IndexedPosition(size, numbers, n) == Some(numbers[i].1.ToPosition()) &&
            LevelKind(numbers, obstacles, numbers[i].1.ToPosition()) == Numbered(n)
  {
    var n := ParseInt(numbers[i].0).value;
    var p := numbers[i].1.ToPosition();
    assert WritesAt(numbers[i], p);
    assert LastWriterAt(numbers, p) == Some(i);
    assert IndexesAs(size, numbers[i], n);
    assert LastIndexedAs(size, numbers, n) == Some(i);
  }

  /**
   * An obstacle placed on a numbered entry's cell makes that cell an
   * obstacle while the index still points the number at it.
   */
  lemma ObstacleLeavesStaleIndex(size: int, numbers: NumberEntries, obstacles: seq<PositionData>, n: int)
    requires IndexedPosition(size, numbers, n).Some?
    requires IndexedPosition(size, numbers, n).value in Positions(obstacles)
    ensures LevelKind(numbers, obstacles, IndexedPosition(size, numbers, n).value) == Obstacle
  {
  }

  /** Keys that do not parse, and out-of-bounds entries, leave no index entry. */
  lemma DroppedEntriesNotIndexed(size: int, numbers: NumberEntries, n: int)
    requires forall j :: 0 <= j < |numbers| && ParseInt(numbers[j].0) == Some(n) ==> !InBounds(size, numbers[j].1)
    ensures IndexedPosition(size, numbers, n) == None
  {
  }

  // ---------------------------------------------------------------------
  // Selection
  // ---------------------------------------------------------------------

  /** The index of the first element satisfying `p`, as Swift's `first(where:)` finds it. */
  function FirstWhere<T>(xs: seq<T>, p: T -> bool): (r: Option<nat>)
    ensures r.Some? ==> r.value < |xs| && p(xs[r.value]) && forall j :: 0 <= j < r.value ==> !p(xs[j])
    ensures r.None? ==> forall j :: 0 <= j < |xs| ==> !p(xs[j])
  {
    if xs == [] then None
    else if p(xs[0]) then Some(0)
    else match FirstWhere(xs[1..], p) {
      case None => None
      case Some(i) => Some(i + 1)
    }
  }

  function HasLevel(level: int): LevelData -> bool {
    (l: LevelData) => l.level == level
  }

  function HasDate(date: string): DailyChallengeData -> bool {
    (c: DailyChallengeData) => c.date == date
  }

  /** The record for `level`, or the last record as a template; none when the list is empty. */
  function SelectLevel(levels: seq<LevelData>, level: int): (r: Option<LevelData>)
    ensures r.None? <==> levels == []
    ensures r.Some? ==> r.value in levels
    ensures r.Some? && r.value.level != level ==>
              r.value == levels[|levels| - 1] && forall j :: 0 <= j < |levels| ==> levels[j].level != level
    ensures forall j :: 0 <= j < |levels| && levels[j].level == level ==>
              r.Some? && r.value.level == level
  {
    match FirstWhere(levels, HasLevel(level))
    case Some(i) => Some(levels[i])
    case None => if levels == [] then None else Some(levels[|levels| - 1])
  }

  /** The challenge for `date`, or the first challenge; none when there are none. */
  function SelectDaily(challenges: seq<DailyChallengeData>, date: string): (r: Option<DailyChallengeData>)
    ensures r.None? <==> challenges == []
    ensures r.Some? ==> r.value in challenges
    ensures r.Some? && r.value.date != date ==>
              r.value == challenges[0] && forall j :: 0 <= j < |challenges| ==> challenges[j].date != date
    ensures forall j :: 0 <= j < |challenges| && challenges[j].date == date ==> r.Some? && r.value.date == date
  {
    match FirstWhere(challenges, HasDate(date))
    case Some(i) => Some(challenges[i])
    case None => if challenges == [] then None else Some(challenges[0])
  }

  /** Selecting a level returns the earliest record carrying that level number. */
  lemma SelectLevelPicksFirst(levels: seq<LevelData>, level: int, i: nat)
    requires i < |levels| && levels[i].level == level
    requires forall j :: 0 <= j < i ==> levels[j].level != level
    ensures SelectLevel(levels, level) == Some(levels[i])
  {
    assert FirstWhere(levels, HasLevel(level)) == Some(i);
  }

  /** Selecting a daily challenge returns the earliest record for that date. */
  lemma SelectDailyPicksFirst(challenges: seq<DailyChallengeData>, date: string, i: nat)
    requires i < |challenges| && challenges[i].date == date
    requires forall j :: 0 <= j < i ==> challenges[j].date != date
    ensures SelectDaily(challenges, date) == Some(challenges[i])
  {
    assert FirstWhere(challenges, HasDate(date)) == Some(i);
  }

  // ---------------------------------------------------------------------
  // Difficulty names
  // ---------------------------------------------------------------------

  predicate IsLetter(c: char) {
    'a' <= c <= 'z' || 'A' <= c <= 'Z'
  }

  function ToUpper(c: char): char {
    if 'a' <= c <= 'z' then (c as int - 32) as char else c
  }

  function ToLower(c: char): char {
    if 'A' <= c <= 'Z' then (c as int + 32) as char else c
  }

  function LowerAll(s: string): (r: string)
    ensures |r| == |s| && forall i :: 0 <= i < |s| ==> r[i] == ToLower(s[i])
  {
    seq(|s|, i requires 0 <= i < |s| => ToLower(s[i]))
  }

  /** A letter that starts a word is upper-cased, every other letter lower-cased. */
  function CapitalizedAt(s: string, i: nat): char
    requires i < |s|
  {
    if !IsLetter(s[i]) then s[i]
    else if i == 0 || !IsLetter(s[i - 1]) then ToUpper(s[i])
    else ToLower(s[i])
  }

  function Capitalized(s: string): (r: string)
    ensures |r| == |s| && forall i :: 0 <= i < |s| ==> r[i] == CapitalizedAt(s, i)
  {
    seq(|s|, i requires 0 <= i < |s| => CapitalizedAt(s, i))
  }

  /** The difficulty whose raw value is `raw`, if any. */
  function DifficultyFromRaw(raw: string): (r: Option<Difficulty>)
    ensures r.Some? ==> r.value.RawValue() == raw
    ensures forall d: Difficulty :: d.RawValue() == raw ==> r == Some(d)
  {
    if raw == "Easy" then Some(Easy)
    else if raw == "Medium" then Some(Medium)
    else if raw == "Hard" then Some(Hard)
    else None
  }

  /** A daily challenge's difficulty: its capitalised name, defaulting to Medium. */
  function DifficultyFromName(name: string): (r: Difficulty)
    ensures r.RawValue() == Capitalized(name) || (r == Medium && forall d: Difficulty :: d.RawValue() != Capitalized(name))
  {
    DifficultyFromRaw(Capitalized(name)).GetOr(Medium)
  }

  predicate IsLowerWord(w: string) {
    w != [] && forall i :: 0 <= i < |w| ==> 'a' <= w[i] <= 'z'
  }

  /** Capitalising yields a capitalised lower-case word exactly when the name is that word in any case. */
  lemma CapitalizedMatches(s: string, w: string)
    requires IsLowerWord(w)
    ensures Capitalized(s) == [ToUpper(w[0])] + w[1..] <==> LowerAll(s) == w
  {
    var cw := [ToUpper(w[0])] + w[1..];
    if Capitalized(s) == cw {
      forall i | 0 <= i < |s|
        ensures ToLower(s[i]) == w[i]
      {
        assert Capitalized(s)[i] == cw[i];
        if i > 0 {
          assert Capitalized(s)[i - 1] == cw[i - 1];
        }
      }
    }
    if LowerAll(s) == w {
      forall i | 0 <= i < |s|
        ensures CapitalizedAt(s, i) == cw[i]
      {
        assert ToLower(s[i]) == w[i];
        if i > 0 {
          assert ToLower(s[i - 1]) == w[i - 1];
        }
      }
    }
  }

  /** A name selects Easy or Hard exactly when it spells that name in any case; anything else is Medium. */
  lemma DifficultyNameCaseInsensitive(name: string)
    ensures DifficultyFromName(name) == Easy <==> LowerAll(name) == "easy"
    ensures DifficultyFromName(name) == Hard <==> LowerAll(name) == "hard"
    ensures DifficultyFromName(name) == Medium <==> LowerAll(name) != "easy" && LowerAll(name) != "hard"
  {
    CapitalizedMatches(name, "easy");
    CapitalizedMatches(name, "medium");
    CapitalizedMatches(name, "hard");
    assert [ToUpper('e')] + "asy" == "Easy";
    assert [ToUpper('m')] + "edium" == "Medium";
    assert [ToUpper('h')] + "ard" == "Hard";
  }

  /** Raw values name their difficulty. */
  lemma RawValueRoundTrip(d: Difficulty)
    ensures DifficultyFromRaw(d.RawValue()) == Some(d)
    ensures DifficultyFromName(d.RawValue()) == d
  {
    DifficultyNameCaseInsensitive(d.RawValue());
    match d {
      case Easy => assert LowerAll("Easy") == "easy";
      case Medium => assert LowerAll("Medium") == "medium";
      case Hard => assert LowerAll("Hard") == "hard";
    }
  }

  // ---------------------------------------------------------------------
  // Loading
  // ---------------------------------------------------------------------

  /**
   * The preset for `level`: no container gives nothing, a matching or
   * template record is built, and an empty list falls back to the generator.
   */
  method LoadLevel(container: Option<LevelsContainer>, level: int, difficulty: Difficulty)
    returns (r: Option<Maze>)
    requires container.Some? && SelectLevel(LevelsFor(container.value, difficulty), level).Some? ==>
               SelectLevel(LevelsFor(container.value, difficulty), level).value.size >= 0
    ensures r.None? <==> container.None?
    ensures r.Some? ==> r.value.Valid() && r.value.difficulty == difficulty && r.value.maxNumber == difficulty.MaxNumber()
    ensures container.Some? ==>
              match SelectLevel(LevelsFor(container.value, difficulty), level)
              case Some(data) => BuiltFrom(r.value, data.size, data.numbers, data.obstacles)
              case None => r.value.size == difficulty.GridSize() && Generator.NumbersPlaced(r.value)
  {
    if container.None? {
      return None;
    }
    var levelData := SelectLevel(LevelsFor(container.value, difficulty), level);
    if levelData.None? {
      var maze, _, _, _, _ := Generator.GenerateMaze(difficulty);
      return Some(maze);
    }
    var maze := CreateMazeFromLevel(levelData.value, difficulty);
    return Some(maze);
  }

  /** Today's challenge, or the first one, at the difficulty its name gives. */
  method LoadDailyChallenge(container: Option<LevelsContainer>, dateString: string) returns (r: Option<Maze>)
    requires container.Some? && SelectDaily(container.value.dailyChallenges, dateString).Some? ==>
               SelectDaily(container.value.dailyChallenges, dateString).value.size >= 0
    ensures r.None? <==> container.None? || container.value.dailyChallenges == []
    ensures r.Some? ==>
              var data := SelectDaily(container.value.dailyChallenges, dateString).value;
              r.value.difficulty == DifficultyFromName(data.difficulty) &&
              BuiltFrom(r.value, data.size, data.numbers, data.obstacles)
  {
    if container.None? {
      return None;
    }
    var challengeData := SelectDaily(container.value.dailyChallenges, dateString);
    if challengeData.None? {
      return None;
    }
    var difficulty := DifficultyFromName(challengeData.value.difficulty);
    var maze := CreateMazeFromChallenge(challengeData.value, difficulty);
    return Some(maze);
  }

  // ---------------------------------------------------------------------
  // Validation
  // ---------------------------------------------------------------------

  /** The keys that parse as integers, in entry order. */
  function ParsedKeys(numbers: NumberEntries): (r: seq<int>)
    ensures |r| <= |numbers|
    ensures forall i :: 0 <= i < |numbers| && ParseInt(numbers[i].0).Some? ==> ParseInt(numbers[i].0).value in r
    ensures forall x :: x in r ==> ParsedKeyOf(numbers, x)
  {
    if numbers == [] then []
    else
      var rest := ParsedKeys(numbers[1..]);
      assert forall x :: ParsedKeyOf(numbers[1..], x) ==> ParsedKeyOf(numbers, x) by {
        forall x | ParsedKeyOf(numbers[1..], x)
          ensures ParsedKeyOf(numbers, x)
        {
          var j :| 0 <= j < |numbers[1..]| && ParseInt(numbers[1..][j].0) == Some(x);
          assert ParseInt(numbers[j + 1].0) == Some(x);
        }
      }
      assert forall i :: 1 <= i < |numbers| ==> numbers[i] == numbers[1..][i - 1];
      match ParseInt(numbers[0].0)
      case Some(n) => [n] + rest
      case None => rest
  }

  ghost predicate ParsedKeyOf(numbers: NumberEntries, x: int) {
    exists j :: 0 <= j < |numbers| && ParseInt(numbers[j].0) == Some(x)
  }

  predicate AllInBounds(size: int, ps: seq<PositionData>) {
    forall i :: 0 <= i < |ps| ==> InBounds(size, ps[i])
  }

  function NumberPositions(numbers: NumberEntries): (r: seq<PositionData>)
    ensures |r| == |numbers| && forall i :: 0 <= i < |r| ==> r[i] == numbers[i].1
  {
    seq(|numbers|, i requires 0 <= i < |numbers| => numbers[i].1)
  }

  /** `ks` holds each of 1..|ks| exactly once. */
  predicate IsOneToK(ks: seq<int>) {
    && (forall i :: 0 <= i < |ks| ==> 1 <= ks[i] <= |ks|)
    && (forall i, j :: 0 <= i < j < |ks| ==> ks[i] != ks[j])
  }

  predicate Ascending(s: seq<int>) {
    forall i, j :: 0 <= i < j < |s| ==> s[i] <= s[j]
  }

  function Insert(x: int, s: seq<int>): (r: seq<int>)
    requires Ascending(s)
    ensures |r| == |s| + 1 && Ascending(r) && multiset(r) == multiset(s) + multiset{x}
    ensures r[0] == x || (s != [] && r[0] == s[0])
  {
    if s == [] || x <= s[0] then
      ConsAscending(x, s);
      [x] + s
    else
      var rest := Insert(x, s[1..]);
      assert s == [s[0]] + s[1..];
      ConsAscending(s[0], rest);
      [s[0]] + rest
  }

  /** A head no larger than the first element keeps an ascending list ascending. */
  lemma ConsAscending(h: int, s: seq<int>)
    requires Ascending(s) && (s != [] ==> h <= s[0])
    ensures Ascending([h] + s)
  {
    var r := [h] + s;
    forall i, j | 0 <= i < j < |r|
      ensures r[i] <= r[j]
    {
      assert r[j] == s[j - 1];
      if i > 0 {
        assert r[i] == s[i - 1];
      } else {
        assert s[0] <= s[j - 1];
      }
    }
  }

  /** Ascending order of `s`, as the source's `sorted()`. */
  function Sort(s: seq<int>): (r: seq<int>)
    ensures |r| == |s| && Ascending(r) && multiset(r) == multiset(s)
  {
    if s == [] then []
    else
      assert s == [s[0]] + s[1..];
      Insert(s[0], Sort(s[1..]))
  }

  predicate NoRepeats(s: seq<int>) {
    forall i, j :: 0 <= i < j < |s| ==> s[i] != s[j]
  }

  /** No repeats is the same as every value occurring at most once. */
  lemma {:induction false} NoRepeatsCounts(s: seq<int>)
    ensures NoRepeats(s) <==> forall x :: multiset(s)[x] <= 1
  {
    if s != [] {
      var t := s[..|s| - 1];
      var a := s[|s| - 1];
      assert s == t + [a];
      NoRepeatsCounts(t);
      if NoRepeats(s) {
        assert a !in t;
        assert multiset(t)[a] == 0;
      }
      if forall x :: multiset(s)[x] <= 1 {
        assert forall x :: multiset(t)[x] <= multiset(s)[x];
        assert multiset(t)[a] == 0;
        forall i, j | 0 <= i < j < |s|
          ensures s[i] != s[j]
        {
          if j == |s| - 1 {
            assert s[i] in multiset(t);
          }
        }
      }
    }
  }

  /** Permutations share their members and their freedom from repeats. */
  lemma PermutationShares(a: seq<int>, b: seq<int>)
    requires multiset(a) == multiset(b)
    ensures forall x :: x in a <==> x in b
    ensures NoRepeats(a) <==> NoRepeats(b)
  {
    forall x
      ensures x in a <==> x in b
    {
      assert x in a <==> x in multiset(a);
      assert x in b <==> x in multiset(b);
    }
    NoRepeatsCounts(a);
    NoRepeatsCounts(b);
  }

  /** Strictly increasing integers are at least as far apart as their indices. */
  lemma {:induction false} IncreasingGaps(s: seq<int>, i: nat, j: nat)
    requires forall a, b :: 0 <= a < b < |s| ==> s[a] < s[b]
    requires i <= j < |s|
    ensures s[j] - s[i] >= j - i
    decreases j - i
  {
    if i < j {
      IncreasingGaps(s, i + 1, j);
    }
  }

  /** A sorted sequence without repeats drawn from 1..|t| is 1, 2, ..., |t|. */
  lemma SortedOneToKIsIota(t: seq<int>)
    requires Ascending(t) && NoRepeats(t)
    requires forall i :: 0 <= i < |t| ==> 1 <= t[i] <= |t|
    ensures forall i :: 0 <= i < |t| ==> t[i] == i + 1
  {
    assert forall a, b :: 0 <= a < b < |t| ==> t[a] < t[b];
    forall i | 0 <= i < |t|
      ensures t[i] == i + 1
    {
      IncreasingGaps(t, 0, i);
      IncreasingGaps(t, i, |t| - 1);
    }
  }

  /** A permutation of 1, 2, ..., |t| holds each of 1..|t| once. */
  lemma IotaPermutationIsOneToK(t: seq<int>, ks: seq<int>)
    requires multiset(t) == multiset(ks) && |t| == |ks|
    requires forall i :: 0 <= i < |t| ==> t[i] == i + 1
    ensures IsOneToK(ks)
  {
    PermutationShares(t, ks);
    assert NoRepeats(t);
    forall i | 0 <= i < |ks|
      ensures 1 <= ks[i] <= |ks|
    {
      assert ks[i] in ks;
      var j :| 0 <= j < |t| && t[j] == ks[i];
    }
  }

  /** Sorting keys that hold each of 1..k once gives 1, 2, ..., k. */
  lemma SortOneToKIsIota(t: seq<int>, ks: seq<int>)
    requires multiset(t) == multiset(ks) && |t| == |ks| && Ascending(t)
    requires IsOneToK(ks)
    ensures forall i :: 0 <= i < |t| ==> t[i] == i + 1
  {
    PermutationShares(t, ks);
    assert NoRepeats(ks);
    forall i | 0 <= i < |t|
      ensures 1 <= t[i] <= |t|
    {
      assert t[i] in t;
      var j :| 0 <= j < |ks| && ks[j] == t[i];
    }
    SortedOneToKIsIota(t);
  }

  /** A sorted permutation of the keys reads 1, 2, ..., k exactly when the keys hold each of 1..k once. */
  lemma SortedPermutationIsOneToK(t: seq<int>, ks: seq<int>)
    requires multiset(t) == multiset(ks) && |t| == |ks| && Ascending(t)
    ensures (forall i :: 0 <= i < |t| ==> t[i] == i + 1) <==> IsOneToK(ks)
  {
    if forall i :: 0 <= i < |t| ==> t[i] == i + 1 {
      IotaPermutationIsOneToK(t, ks);
    }
    if IsOneToK(ks) {
      SortOneToKIsIota(t, ks);
    }
  }

  /**
   * A record is valid when every number and obstacle lies on the grid and
   * the integer keys, once sorted, read 1, 2, ..., k.
   */
  method ValidateLevel(levelData: LevelData) returns (ok: bool)
    ensures ok <==> && AllInBounds(levelData.size, NumberPositions(levelData.numbers))
                    && AllInBounds(levelData.size, levelData.obstacles)
                    && IsOneToK(ParsedKeys(levelData.numbers))
  {
    var size := levelData.size;
    for i := 0 to |levelData.numbers|
      invariant forall k :: 0 <= k < i ==> InBounds(size, levelData.numbers[k].1)
    {
      var positionData := levelData.numbers[i].1;
      if positionData.row < 0 || positionData.row >= size || positionData.col < 0 || positionData.col >= size {
        return false;
      }
    }
    for i := 0 to |levelData.obstacles|
      invariant forall k :: 0 <= k < i ==> InBounds(size, levelData.obstacles[k])
    {
      var obstacleData := levelData.obstacles[i];
      if obstacleData.row < 0 || obstacleData.row >= size || obstacleData.col < 0 || obstacleData.col >= size {
        return false;
      }
    }
    ok := KeysSequential(levelData.numbers);
  }

  /** The sequence check of `validateLevel`: sorted integer keys must read 1, 2, ..., k. */
  method KeysSequential(entries: NumberEntries) returns (ok: bool)
    ensures ok <==> IsOneToK(ParsedKeys(entries))
  {
    var keys := ParsedKeys(entries);
    var numbers := Sort(keys);
    ok := ReadsOneToK(numbers);
    SortedPermutationIsOneToK(numbers, keys);
  }

  /** The loop of that check: each sorted key must equal its index plus one. */
  method ReadsOneToK(numbers: seq<int>) returns (ok: bool)
    ensures ok <==> forall i :: 0 <= i < |numbers| ==> numbers[i] == i + 1
  {
    for index := 0 to |numbers|
      invariant forall k :: 0 <= k < index ==> numbers[k] == k + 1
    {
      if numbers[index] != index + 1 {
        return false;
      }
    }
    return true;
  }

  /** Two keys that parse to the same number make a record invalid. */
  lemma DuplicateKeysInvalid(numbers: NumberEntries, i: int, j: int)
    requires 0 <= i < j < |ParsedKeys(numbers)| && ParsedKeys(numbers)[i] == ParsedKeys(numbers)[j]
    ensures !IsOneToK(ParsedKeys(numbers))
  {
  }

  // ---------------------------------------------------------------------
  // Level statistics
  // ---------------------------------------------------------------------

  /** Best results for one level; times are whole seconds, 0 meaning none yet. */
  datatype LevelStatistics = LevelStatistics(level: int, difficulty: string, bestTime: int, bestScore: int,
                                             attempts: int, completed: bool, stars: int) {

    /** One more completion: best time and score kept, stars from this run. */
    function UpdateWithCompletion(time: int, score: int): (r: LevelStatistics)
      ensures r.level == level && r.difficulty == difficulty
      ensures r.attempts == attempts + 1 && r.completed
      ensures r.bestTime == if bestTime == 0 || time < bestTime then time else bestTime
      ensures r.bestScore == Max(bestScore, score)
      ensures r.stars == StarsFor(true, time, score) && 1 <= r.stars <= 3
    {
      var s := this.(attempts := attempts + 1, completed := true);
      var s := if s.bestTime == 0 || time < s.bestTime then s.(bestTime := time) else s;
      var s := if score > s.bestScore then s.(bestScore := score) else s;
      s.(stars := s.CalculateStars(time, score))
    }

    function CalculateStars(time: int, score: int): int {
      StarsFor(completed, time, score)
    }
  }

  /** Three stars for 800 points within a minute, two for 600 within two, one for finishing. */
  function StarsFor(completed: bool, time: int, score: int): (r: int)
    ensures 0 <= r <= 3
    ensures r == 0 <==> !completed && !(score >= 600 && time <= 120)
    ensures r == 3 <==> score >= 800 && time <= 60
    ensures r == 2 <==> !(score >= 800 && time <= 60) && score >= 600 && time <= 120
    ensures r == 1 <==> completed && !(score >= 600 && time <= 120)
  {
    if score >= 800 && time <= 60 then 3
    else if score >= 600 && time <= 120 then 2
    else if completed then 1
    else 0
  }

  /** A better score in less time never earns fewer stars. */
  lemma StarsMonotone(completed: bool, time: int, score: int, time': int, score': int)
    requires time' <= time && score' >= score
    ensures StarsFor(completed, time', score') >= StarsFor(completed, time, score)
  {
  }

  function NewLevelStatistics(level: int, difficulty: Difficulty): (r: LevelStatistics)
    ensures r.level == level && r.difficulty == difficulty.RawValue()
    ensures r.bestTime == 0 && r.bestScore == 0 && r.attempts == 0 && r.stars == 0 && !r.completed
  {
    LevelStatistics(level, difficulty.RawValue(), 0, 0, 0, false, 0)
  }

  /** Statistics after each (time, score) run in order. */
  function AfterRuns(s: LevelStatistics, runs: seq<(int, int)>): LevelStatistics
    decreases |runs|
  {
    if runs == [] then s
    else AfterRuns(s.UpdateWithCompletion(runs[0].0, runs[0].1), runs[1..])
  }

  function MinTime(runs: seq<(int, int)>): int
    requires runs != []
  {
    if |runs| == 1 then runs[0].0 else Min(runs[0].0, MinTime(runs[1..]))
  }

  function MaxScore(runs: seq<(int, int)>): int
    requires runs != []
  {
    if |runs| == 1 then runs[0].1 else Max(runs[0].1, MaxScore(runs[1..]))
  }

  function Min(a: int, b: int): int {
    if a < b then a else b
  }

  /**
   * After any runs the best score is the maximum and every run is counted.
   * When every run took a positive time, the best time is the fastest run,
   * or the fastest of that and the recorded best if one was recorded (0 means
   * none).
   */
  lemma {:induction false} AfterRunsKeepsBest(s: LevelStatistics, runs: seq<(int, int)>)
    ensures AfterRuns(s, runs).bestScore == if runs == [] then s.bestScore else Max(s.bestScore, MaxScore(runs))
    ensures AfterRuns(s, runs).attempts == s.attempts + |runs|
    ensures (forall i :: 0 <= i < |runs| ==> runs[i].0 > 0) && s.bestTime >= 0 ==>
              AfterRuns(s, runs).bestTime ==
                if runs == [] then s.bestTime
                else if s.bestTime == 0 then MinTime(runs)
                else Min(s.bestTime, MinTime(runs))
    decreases |runs|
  {
    if runs != [] {
      var s' := s.UpdateWithCompletion(runs[0].0, runs[0].1);
      AfterRunsKeepsBest(s', runs[1..]);
      if forall i :: 0 <= i < |runs| ==> runs[i].0 > 0 {
        assert forall i :: 0 <= i < |runs[1..]| ==> runs[1..][i].0 > 0 by {
          forall i | 0 <= i < |runs[1..]| ensures runs[1..][i].0 > 0 {
            assert runs[1..][i] == runs[i + 1];
          }
        }
      }
    }
  }

  /**
   * Starting fresh, any non-empty sequence of runs with positive times
   * leaves the fastest time, the best non-negative score, one attempt per
   * run, the level completed and between one and three stars.
   */
  lemma FreshStatisticsAfterRuns(level: int, difficulty: Difficulty, runs: seq<(int, int)>)
    requires runs != [] && forall i :: 0 <= i < |runs| ==> runs[i].0 > 0
    ensures var r := AfterRuns(NewLevelStatistics(level, difficulty), runs);
            && r.bestTime == MinTime(runs)
            && r.bestScore == Max(0, MaxScore(runs))
            && r.attempts == |runs|
            && r.completed
            && 1 <= r.stars <= 3
  {
    var s := NewLevelStatistics(level, difficulty);
    var s' := s.UpdateWithCompletion(runs[0].0, runs[0].1);
    AfterRunsKeepsBest(s, runs);
    AfterRunsCompleted(s', runs[1..]);
  }

  lemma {:induction false} AfterRunsCompleted(s: LevelStatistics, runs: seq<(int, int)>)
    requires s.completed && 1 <= s.stars <= 3
    ensures AfterRuns(s, runs).completed && 1 <= AfterRuns(s, runs).stars <= 3
    decreases |runs|
  {
    if runs != [] {
      AfterRunsCompleted(s.UpdateWithCompletion(runs[0].0, runs[0].1), runs[1..]);
    }
  }
}
