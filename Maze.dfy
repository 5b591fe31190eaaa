/**
 * The grid of the numbered-path puzzle: positions and their 8-neighbourhood,
 * cell kinds, the difficulty presets, and the maze itself, a square array of
 * cells plus an index from each placed number to its position.
 */
module MazeModel {
  import opened Wrappers

  /** What a cell holds: exactly one variant at a time. */
  datatype CellType = Empty | Numbered(number: int) | Obstacle | Path

  function Abs(x: int): nat {
    if x < 0 then -x else x
  }

  function Max(a: int, b: int): int {
    if a < b then b else a
  }

  /** A (row, column) pair; equality is by both coordinates. */
  datatype Position = Position(row: int, col: int) {

    /** Row-major order: earlier row first, then earlier column. */
    predicate Precedes(other: Position) {
      row < other.row || (row == other.row && col < other.col)
    }

    /**
     * The eight neighbours, top-left to bottom-right: they are listed in
     * row-major order and are exactly the positions adjacent to this one.
     */
    function AdjacentPositions(): (r: seq<Position>)
      ensures |r| == 8
      ensures forall i, j :: 0 <= i < j < |r| ==> r[i].Precedes(r[j])
      ensures forall q :: q in r <==> IsAdjacent(q)
    {
      [ Position(row - 1, col - 1), Position(row - 1, col), Position(row - 1, col + 1),
        Position(row, col - 1),                             Position(row, col + 1),
        Position(row + 1, col - 1), Position(row + 1, col), Position(row + 1, col + 1) ]
    }

    /** Chebyshev distance exactly one. */
    function IsAdjacent(other: Position): (r: bool)
      ensures r <==> -1 <= row - other.row <= 1 && -1 <= col - other.col <= 1 && this != other
    {
      var rowDiff := Abs(row - other.row);
      var colDiff := Abs(col - other.col);
      rowDiff <= 1 && colDiff <= 1 && rowDiff + colDiff > 0
    }
  }

  /** Adjacency is irreflexive and symmetric. */
  lemma AdjacencyIrreflexiveSymmetric(p: Position, q: Position)
    ensures !p.IsAdjacent(p)
    ensures p.IsAdjacent(q) <==> q.IsAdjacent(p)
  {
  }

  /** Strictly increasing in row-major order, hence without repeats. */
  ghost predicate RowMajor(s: seq<Position>) {
    forall i, j :: 0 <= i < j < |s| ==> s[i].Precedes(s[j])
  }

  /** A sublist `rest` of the tail of an ordered list keeps its order with the head in front. */
  lemma RowMajorCons(s: seq<Position>, rest: seq<Position>)
    requires s != [] && forall q :: q in rest ==> q in s[1..]
    requires RowMajor(s[1..]) ==> RowMajor(rest)
    ensures RowMajor(s) ==> RowMajor(rest) && RowMajor([s[0]] + rest)
  {
    if RowMajor(s) {
      assert RowMajor(s[1..]);
      var r := [s[0]] + rest;
      forall i, j | 0 <= i < j < |r|
        ensures r[i].Precedes(r[j])
      {
        assert r[j] == rest[j - 1] && rest[j - 1] in rest;
        var k :| 0 <= k < |s[1..]| && s[1..][k] == rest[j - 1];
        assert s[k + 1] == r[j];
        if i > 0 {
          assert r[i] == rest[i - 1];
        }
      }
    }
  }

  /** One cell: a fixed position, a kind, and the hint and selection flags. */
  datatype MazeCell = MazeCell(position: Position, kind: CellType, isHighlighted: bool, isSelected: bool) {

    predicate IsNumbered() {
      kind.Numbered?
    }

    /** The number the cell carries, if it is a numbered cell. */
    function Number(): (r: Option<int>)
      ensures r.Some? <==> IsNumbered()
      ensures forall n :: r == Some(n) <==> kind == Numbered(n)
    {
      match kind
      case Numbered(n) => Some(n)
      case _ => None
    }

    /** Only obstacles block movement. */
    function IsTraversable(): (r: bool)
      ensures r <==> !kind.Obstacle?
      ensures IsNumbered() ==> r
    {
      match kind
      case Empty => true
      case Numbered(_) => true
      case Path => true
      case Obstacle => false
    }
  }

  function NewCell(row: int, col: int): MazeCell {
    MazeCell(Position(row, col), Empty, false, false)
  }

  datatype Difficulty = Easy | Medium | Hard {

    function RawValue(): string {
      match this
      case Easy => "Easy"
      case Medium => "Medium"
      case Hard => "Hard"
    }

    function GridSize(): nat {
      match this
      case Easy => 4
      case Medium => 6
      case Hard => 8
    }

    function MaxNumber(): nat {
      match this
      case Easy => 8
      case Medium => 18
      case Hard => 32
    }

    /** The obstacle fraction 0.1 / 0.15 / 0.2, as a whole percentage. */
    function ObstaclePercent(): nat {
      match this
      case Easy => 10
      case Medium => 15
      case Hard => 20
    }
  }

  /** Every preset leaves at least half of the grid free of numbers. */
  lemma PresetsFit(d: Difficulty)
    ensures 2 <= d.MaxNumber() && 2 * d.MaxNumber() <= d.GridSize() * d.GridSize()
  {
  }

  datatype GameMode = Classic | Challenge | Daily {

    predicate HasTimeLimit() {
      this == Challenge
    }

    function TimeLimitSeconds(): nat {
      120
    }
  }

  /**
   * A maze of `size` x `size` cells. The cell array itself is never replaced,
   * only its elements; `numberedCells` maps each placed number to a position.
   */
  class Maze {
    const size: nat
    const difficulty: Difficulty
    const maxNumber: int
    const cells: array2<MazeCell>
    var numberedCells: map<int, Position>

    /** The array is `size` x `size` and every cell knows its own position. */
    ghost predicate Valid()
      reads this, cells
    {
      cells.Length0 == size && cells.Length1 == size &&
      forall r, c :: 0 <= r < size && 0 <= c < size ==> cells[r, c].position == Position(r, c)
    }

    constructor (size: nat, difficulty: Difficulty)
      ensures Valid() && fresh(cells)
      ensures this.size == size && this.difficulty == difficulty
      ensures maxNumber == difficulty.MaxNumber()
      ensures numberedCells == map[]
      ensures forall r, c :: 0 <= r < size && 0 <= c < size ==> cells[r, c] == NewCell(r, c)
    {
      this.size := size;
      this.difficulty := difficulty;
      this.maxNumber := difficulty.MaxNumber();
      this.cells := new MazeCell[size, size]((r, c) => NewCell(r, c));
      this.numberedCells := map[];
    }

    predicate IsValidPosition(p: Position) {
      0 <= p.row < size && 0 <= p.col < size
    }

    /** The kind of an in-bounds cell. */
    function KindAt(p: Position): CellType
      reads this, cells
      requires Valid() && IsValidPosition(p)
    {
      cells[p.row, p.col].kind
    }

    /** Whether `p` is in bounds and not an obstacle. */
    predicate IsOpen(p: Position)
      reads this, cells
      requires Valid()
    {
      IsValidPosition(p) && cells[p.row, p.col].IsTraversable()
    }

    /** The cell at `p`, absent exactly when `p` is out of bounds. */
    function CellAt(p: Position): (r: Option<MazeCell>)
      reads this, cells
      requires Valid()
      ensures r.None? <==> !IsValidPosition(p)
      ensures r.Some? ==> r.value.position == p && r.value.kind == KindAt(p)
      ensures r.Some? ==> r.value == cells[p.row, p.col]
    {
      if IsValidPosition(p) then Some(cells[p.row, p.col]) else None
    }

    /**
     * Sets the kind of an in-bounds cell; out of bounds it does nothing.
     * A numbered kind (re)points its number at `p`; nothing is ever removed
     * from the index, so overwriting a numbered cell leaves a stale entry.
     */
    method SetCell(p: Position, t: CellType)
      requires Valid()
      modifies this, cells
      ensures Valid()
      ensures IsValidPosition(p) ==> cells[p.row, p.col] == old(cells[p.row, p.col]).(kind := t)
      ensures forall r, c :: 0 <= r < size && 0 <= c < size && Position(r, c) != p ==>
                cells[r, c] == old(cells[r, c])
      ensures numberedCells == if IsValidPosition(p) && t.Numbered?
                               then old(numberedCells)[t.number := p]
                               else old(numberedCells)
    {
      if !IsValidPosition(p) {
        return;
      }
      cells[p.row, p.col] := cells[p.row, p.col].(kind := t);
      if t.Numbered? {
        numberedCells := numberedCells[t.number := p];
      }
    }

    method HighlightCell(p: Position)
      requires Valid()
      modifies cells
      ensures Valid()
      ensures IsValidPosition(p) ==> cells[p.row, p.col] == old(cells[p.row, p.col]).(isHighlighted := true)
      ensures forall r, c :: 0 <= r < size && 0 <= c < size && Position(r, c) != p ==>
                cells[r, c] == old(cells[r, c])
    {
      if !IsValidPosition(p) {
        return;
      }
      cells[p.row, p.col] := cells[p.row, p.col].(isHighlighted := true);
    }

    method ClearHighlights()
      requires Valid()
      modifies cells
      ensures Valid()
      ensures forall r, c :: 0 <= r < size && 0 <= c < size ==>
                cells[r, c] == old(cells[r, c]).(isHighlighted := false)
    {
      for row := 0 to size
        invariant forall r, c :: 0 <= r < row && 0 <= c < size ==>
                    cells[r, c] == old(cells[r, c]).(isHighlighted := false)
        invariant forall r, c :: row <= r < size && 0 <= c < size ==> cells[r, c] == old(cells[r, c])
      {
        for col := 0 to size
          invariant forall r, c :: 0 <= r < row && 0 <= c < size ==>
                      cells[r, c] == old(cells[r, c]).(isHighlighted := false)
          invariant forall c :: 0 <= c < col ==> cells[row, c] == old(cells[row, c]).(isHighlighted := false)
          invariant forall c :: col <= c < size ==> cells[row, c] == old(cells[row, c])
          invariant forall r, c :: row < r < size && 0 <= c < size ==> cells[r, c] == old(cells[r, c])
        {
          cells[row, col] := cells[row, col].(isHighlighted := false);
        }
      }
    }

    method ClearSelections()
      requires Valid()
      modifies cells
      ensures Valid()
      ensures forall r, c :: 0 <= r < size && 0 <= c < size ==>
                cells[r, c] == old(cells[r, c]).(isSelected := false)
    {
      for row := 0 to size
        invariant forall r, c :: 0 <= r < row && 0 <= c < size ==>
                    cells[r, c] == old(cells[r, c]).(isSelected := false)
        invariant forall r, c :: row <= r < size && 0 <= c < size ==> cells[r, c] == old(cells[r, c])
      {
        for col := 0 to size
          invariant forall r, c :: 0 <= r < row && 0 <= c < size ==>
                      cells[r, c] == old(cells[r, c]).(isSelected := false)
          invariant forall c :: 0 <= c < col ==> cells[row, c] == old(cells[row, c]).(isSelected := false)
          invariant forall c :: col <= c < size ==> cells[row, c] == old(cells[row, c])
          invariant forall r, c :: row < r < size && 0 <= c < size ==> cells[r, c] == old(cells[r, c])
        {
          cells[row, col] := cells[row, col].(isSelected := false);
        }
      }
    }

    /**
     * In bounds: afterwards `p` is the one selected cell. Out of bounds the
     * guard comes before the clearing, so nothing changes.
     */
    method SelectCell(p: Position)
      requires Valid()
      modifies cells
      ensures Valid()
      ensures !IsValidPosition(p) ==>
                forall r, c :: 0 <= r < size && 0 <= c < size ==> cells[r, c] == old(cells[r, c])
      ensures IsValidPosition(p) ==>
                forall r, c :: 0 <= r < size && 0 <= c < size ==>
                  cells[r, c] == old(cells[r, c]).(isSelected := Position(r, c) == p)
    {
      if !IsValidPosition(p) {
        return;
      }
      ClearSelections();
      cells[p.row, p.col] := cells[p.row, p.col].(isSelected := true);
    }

    /** Marks an Empty cell as Path; every other kind is left alone. */
    method SetPath(p: Position)
      requires Valid()
      modifies cells
      ensures Valid()
      ensures IsValidPosition(p) && old(cells[p.row, p.col].kind) == Empty ==>
                cells[p.row, p.col] == old(cells[p.row, p.col]).(kind := Path)
      ensures forall r, c :: (0 <= r < size && 0 <= c < size &&
                              (Position(r, c) != p || old(cells[r, c].kind) != Empty)) ==>
                cells[r, c] == old(cells[r, c])
      ensures !IsValidPosition(p) || old(cells[p.row, p.col].kind) != Empty ==> unchanged(cells)
    {
      if !IsValidPosition(p) {
        return;
      }
      if cells[p.row, p.col].kind == Empty {
        cells[p.row, p.col] := cells[p.row, p.col].(kind := Path);
      }
    }

    /** Turns a Path cell back into Empty; every other kind is left alone. */
    method ClearPath(p: Position)
      requires Valid()
      modifies cells
      ensures Valid()
      ensures IsValidPosition(p) && old(cells[p.row, p.col].kind) == Path ==>
                cells[p.row, p.col] == old(cells[p.row, p.col]).(kind := Empty)
      ensures forall r, c :: (0 <= r < size && 0 <= c < size &&
                              (Position(r, c) != p || old(cells[r, c].kind) != Path)) ==>
                cells[r, c] == old(cells[r, c])
      ensures !IsValidPosition(p) || old(cells[p.row, p.col].kind) != Path ==> unchanged(cells)
    {
      if !IsValidPosition(p) {
        return;
      }
      if cells[p.row, p.col].kind == Path {
        cells[p.row, p.col] := cells[p.row, p.col].(kind := Empty);
      }
    }

    /** Every Path cell becomes Empty; no Path cell is left. */
    method ClearAllPaths()
      requires Valid()
      modifies cells
      ensures Valid()
      ensures forall r, c :: 0 <= r < size && 0 <= c < size ==>
                cells[r, c] == (if old(cells[r, c].kind) == Path then old(cells[r, c]).(kind := Empty)
                                else old(cells[r, c]))
      ensures forall r, c :: 0 <= r < size && 0 <= c < size ==> cells[r, c].kind != Path
    {
      for row := 0 to size
        invariant forall r, c :: 0 <= r < row && 0 <= c < size ==>
                    cells[r, c] == (if old(cells[r, c].kind) == Path then old(cells[r, c]).(kind := Empty)
                                    else old(cells[r, c]))
        invariant forall r, c :: row <= r < size && 0 <= c < size ==> cells[r, c] == old(cells[r, c])
      {
        for col := 0 to size
          invariant forall r, c :: 0 <= r < row && 0 <= c < size ==>
                      cells[r, c] == (if old(cells[r, c].kind) == Path then old(cells[r, c]).(kind := Empty)
                                      else old(cells[r, c]))
          invariant forall c :: 0 <= c < col ==>
                      cells[row, c] == (if old(cells[row, c].kind) == Path then old(cells[row, c]).(kind := Empty)
                                        else old(cells[row, c]))
          invariant forall c :: col <= c < size ==> cells[row, c] == old(cells[row, c])
          invariant forall r, c :: row < r < size && 0 <= c < size ==> cells[r, c] == old(cells[r, c])
        {
          if cells[row, col].kind == Path {
            cells[row, col] := cells[row, col].(kind := Empty);
          }
        }
      }
    }

    /** No two placed numbers share a cell. */
    predicate IndexInjective()
      reads this
    {
      forall a, b :: a in numberedCells && b in numberedCells && numberedCells[a] == numberedCells[b] ==> a == b
    }

    /** The placed numbers, ascending. */
    function NumbersInOrder(): (ks: seq<int>)
      reads this
      ensures |ks| == |numberedCells|
      ensures forall n :: n in ks <==> n in numberedCells
      ensures forall i, j :: 0 <= i < j < |ks| ==> ks[i] < ks[j]
    {
      SortedInts(numberedCells.Keys)
    }

    /**
     * The position of every placed number, one entry per number. When no two
     * numbers share a cell the list is in increasing order of number: entry
     * `i` is where the `i`-th smallest placed number sits.
     */
    function GetAllNumberedPositions(): (r: seq<Position>)
      reads this
      ensures |r| == |numberedCells|
      ensures forall q :: q in r <==> q in numberedCells.Values
      ensures IndexInjective() ==>
                forall i :: 0 <= i < |r| ==>
                  NumbersInOrder()[i] in numberedCells && r[i] == numberedCells[NumbersInOrder()[i]]
    {
      var keys := NumbersInOrder();
      PositionsOfCovers(numberedCells, keys);
      PositionsOf(numberedCells, keys)
    }

    /** Every Empty cell, each once, in row-major order. */
    method GetEmptyPositions() returns (r: seq<Position>)
      requires Valid()
      ensures forall p :: p in r <==> IsValidPosition(p) && KindAt(p) == Empty
      ensures forall i, j :: 0 <= i < j < |r| ==> r[i].Precedes(r[j])
    {
      r := [];
      for row := 0 to size
        invariant forall p :: p in r <==> 0 <= p.row < row && 0 <= p.col < size && KindAt(p) == Empty
        invariant forall i, j :: 0 <= i < j < |r| ==> r[i].Precedes(r[j])
        invariant forall i :: 0 <= i < |r| ==> r[i].row < row
      {
        for col := 0 to size
          invariant forall p :: p in r <==>
                      (0 <= p.row < row && 0 <= p.col < size && KindAt(p) == Empty) ||
                      (p.row == row && 0 <= p.col < col && KindAt(p) == Empty)
          invariant forall i, j :: 0 <= i < j < |r| ==> r[i].Precedes(r[j])
          invariant forall i :: 0 <= i < |r| ==> r[i].Precedes(Position(row, col))
        {
          if cells[row, col].kind == Empty {
            r := r + [Position(row, col)];
          }
        }
      }
    }
  }

  /** The smallest element of a non-empty finite set of integers. */
  function MinOf(s: set<int>): (m: int)
    requires s != {}
    ensures m in s && forall y :: y in s ==> m <= y
  {
    MinExists(s);
    var m :| m in s && forall y :: y in s ==> m <= y;
    m
  }

  /** A non-empty set has an element. */
  lemma NonEmptyHasElement(s: set<int>)
    requires s != {}
    ensures exists x :: x in s
  {
    assert (forall x :: x !in s) ==> s == {};
  }

  lemma {:induction false} MinExists(s: set<int>)
    requires s != {}
    ensures exists m :: m in s && forall y :: y in s ==> m <= y
    decreases |s|
  {
    NonEmptyHasElement(s);
    var x :| x in s;
    var rest := s - {x};
    if rest == {} {
      forall y | y in s
        ensures x <= y
      {
        assert y == x || y in rest;
      }
      assert x in s && forall y :: y in s ==> x <= y;
    } else {
      assert |rest| < |s|;
      MinExists(rest);
      var m :| m in rest && forall y :: y in rest ==> m <= y;
      var least := if x < m then x else m;
      forall y | y in s
        ensures least <= y
      {
        assert y == x || y in rest;
      }
      assert least in s && forall y :: y in s ==> least <= y;
    }
  }

  /** The positions of `keys`, in the order of `keys`. */
  function PositionsOf(index: map<int, Position>, keys: seq<int>): (r: seq<Position>)
    requires forall i :: 0 <= i < |keys| ==> keys[i] in index
    ensures |r| == |keys| && forall i :: 0 <= i < |keys| ==> r[i] == index[keys[i]]
  {
    seq(|keys|, i requires 0 <= i < |keys| => index[keys[i]])
  }

  /** Listing every key lists every indexed position. */
  lemma PositionsOfCovers(index: map<int, Position>, keys: seq<int>)
    requires forall n :: n in keys <==> n in index
    ensures forall i :: 0 <= i < |keys| ==> keys[i] in index
    ensures forall n :: n in index ==> index[n] in PositionsOf(index, keys)
    ensures forall q :: q in PositionsOf(index, keys) <==> q in index.Values
  {
    forall i | 0 <= i < |keys|
      ensures keys[i] in index
    {
      var n := keys[i];
      assert n in keys;
    }
    forall n | n in index
      ensures index[n] in PositionsOf(index, keys)
    {
      assert n in keys;
      var i :| 0 <= i < |keys| && keys[i] == n;
      assert PositionsOf(index, keys)[i] == index[n];
    }
    forall q | q in PositionsOf(index, keys)
      ensures q in index.Values
    {
      var i :| 0 <= i < |keys| && PositionsOf(index, keys)[i] == q;
      assert index[keys[i]] == q;
    }
  }

  /** The elements of `s` in strictly increasing order. */
  function SortedInts(s: set<int>): (r: seq<int>)
    ensures |r| == |s|
    ensures forall x :: x in r <==> x in s
    ensures forall i, j :: 0 <= i < j < |r| ==> r[i] < r[j]
    decreases |s|
  {
    if s == {} then []
    else
      var m := MinOf(s);
      var rest := SortedInts(s - {m});
      PrependLeast(m, s, rest);
      [m] + rest
  }

  /** The least element in front of the others in increasing order lists the whole set in increasing order. */
  lemma PrependLeast(m: int, s: set<int>, rest: seq<int>)
    requires m in s && forall y :: y in s ==> m <= y
    requires |rest| == |s - {m}| && forall x :: x in rest <==> x in s - {m}
    requires forall i, j :: 0 <= i < j < |rest| ==> rest[i] < rest[j]
    ensures |[m] + rest| == |s|
    ensures forall x :: x in [m] + rest <==> x in s
    ensures forall i, j :: 0 <= i < j < |[m] + rest| ==> ([m] + rest)[i] < ([m] + rest)[j]
  {
    var r := [m] + rest;
    assert |s - {m}| == |s| - 1;
    forall x
      ensures x in r <==> x in s
    {
      assert x in r <==> x == m || x in rest;
    }
    forall i, j | 0 <= i < j < |r|
      ensures r[i] < r[j]
    {
      assert r[j] == rest[j - 1] && rest[j - 1] in rest;
      if i > 0 {
        assert r[i] == rest[i - 1];
      }
    }
  }
}
