/**
 * The older grid (Assets/Scripts/GridCell.cs, Assets/Scripts/GridManager.cs): cells in a
 * `rows` by `columns` array, a "clear run to the bus" test along one row of the array,
 * and a list of waiting characters with a limit of four. Cell colours are Unity `Color`
 * values in the source; here they are colour labels, and `GenerateGrid` takes them as a
 * function instead of drawing them at random.
 */
module LegacyGrid {
  import Lists
  import opened Routes
  import opened Board

  class GridCell {
    var GridPosition: Pos
    var CellColor: string
    var IsOccupied: bool
    var characterInCell: Character?

    /** An unoccupied cell never holds a character. */
    ghost predicate Valid()
      reads this
    {
      !IsOccupied ==> characterInCell == null
    }

    /** A fresh component: unoccupied, holding no character, at the default position and colour. */
    constructor()
      ensures Valid() && !IsOccupied && characterInCell == null
      ensures GridPosition == Pos(0, 0) && CellColor == ""
    {
      GridPosition := Pos(0, 0);
      CellColor := "";
      IsOccupied := false;
      characterInCell := null;
    }

    /** `Initialize`: records position and colour; occupancy is untouched. */
    method Initialize(position: Pos, color: string)
      modifies this`GridPosition, this`CellColor
      ensures GridPosition == position && CellColor == color
    {
      GridPosition := position;
      CellColor := color;
    }

    /**
     * `SetOccupied(occupied, character)`: the cell keeps the character only when it
     * becomes occupied; position and colour are untouched.
     */
    method SetOccupied(occupied: bool, character: Character?)
      modifies this`IsOccupied, this`characterInCell
      ensures Valid()
      ensures IsOccupied == occupied && IsEmpty() == !occupied
      ensures occupied ==> GetCharacter() == character
      ensures !occupied ==> GetCharacter() == null
    {
      IsOccupied := occupied;
      characterInCell := if occupied then character else null;
    }

    /** `GetCharacter`: on a valid cell, an empty cell yields null. */
    function GetCharacter(): (c: Character?)
      reads this
      ensures Valid() && !IsOccupied ==> c == null
    {
      characterInCell
    }

    /** `IsEmpty`: exactly when the cell is not occupied. */
    function IsEmpty(): (empty: bool)
      reads this
      ensures empty <==> !IsOccupied
    {
      !IsOccupied
    }
  }

  /** The waiting list is full from four characters on. */
  const WaitingAreaLimit: nat := 4

  class GridManager {
    const rows: int
    const columns: int
    /** `grid[row, col]`; null until `GenerateGrid` runs. */
    var grid: array2?<GridCell?>
    var waitingAreaCharacters: seq<Character>

    constructor(rows: int, columns: int)
      ensures this.rows == rows && this.columns == columns
      ensures grid == null && waitingAreaCharacters == []
    {
      this.rows := rows;
      this.columns := columns;
      grid := null;
      waitingAreaCharacters := [];
    }

    /** The grid `GenerateGrid` builds: `rows` by `columns`, a cell in every place. */
    ghost predicate Generated()
      reads this, grid
    {
      && grid != null && grid.Length0 == rows && grid.Length1 == columns
      && forall r, c :: 0 <= r < rows && 0 <= c < columns ==> grid[r, c] != null
    }

    /**
     * `GenerateGrid`: a new cell for every (row, col), initialised with position
     * (row, col) and colour `colorOf(row, col)`, and stored at `grid[row, col]`.
     * `new GridCell[rows, columns]` throws on a negative size, hence the requirement.
     */
    method GenerateGrid(colorOf: (int, int) -> string)
      requires rows >= 0 && columns >= 0
      modifies this`grid
      ensures Generated() && fresh(grid)
      ensures forall r, c :: 0 <= r < rows && 0 <= c < columns ==>
        fresh(grid[r, c]) && Placed(grid, r, c, colorOf)
    {
      var cells := new GridCell?[rows, columns]((_, _) => null);
      var row := 0;
      while row < rows
        invariant 0 <= row <= rows
        invariant forall r, c :: 0 <= r < row && 0 <= c < columns ==> fresh(cells[r, c]) && Placed(cells, r, c, colorOf)
      {
        var col := 0;
        while col < columns
          invariant 0 <= col <= columns
          invariant forall r, c :: 0 <= r < row && 0 <= c < columns ==> fresh(cells[r, c]) && Placed(cells, r, c, colorOf)
          invariant forall c :: 0 <= c < col ==> fresh(cells[row, c]) && Placed(cells, row, c, colorOf)
        {
          var cell := new GridCell();
          cell.Initialize(Pos(row, col), colorOf(row, col));
          cells[row, col] := cell;
          col := col + 1;
        }
        row := row + 1;
      }
      grid := cells;
    }

    /** The cell at (r, c) exists, is initialised for that place and is empty. */
    ghost predicate Placed(cells: array2<GridCell?>, r: int, c: int, colorOf: (int, int) -> string)
      requires 0 <= r < cells.Length0 && 0 <= c < cells.Length1
      reads cells, cells[r, c]
    {
      && cells[r, c] != null
      && cells[r, c].GridPosition == Pos(r, c) && cells[r, c].CellColor == colorOf(r, c)
      && cells[r, c].Valid() && !cells[r, c].IsOccupied
    }

    /**
     * `CanMoveToBus(cell)`: every cell after the given one along its row of the array
     * (indices `y + 1` up to `columns - 1`) is unoccupied. The scan stops at the first
     * occupied cell; for a cell in the last column it checks nothing. The source indexes the
     * array, so it needs the row to exist whenever there is something to check.
     */
    method CanMoveToBus(cell: GridCell) returns (canMove: bool)
      requires Generated()
      requires cell.GridPosition.y + 1 < columns ==> 0 <= cell.GridPosition.x < rows && cell.GridPosition.y >= -1
      ensures canMove <==> ClearRun(cell.GridPosition)
      ensures cell.GridPosition.y >= columns - 1 ==> canMove
    {
      var pos := cell.GridPosition;
      var z := pos.y + 1;
      while z < columns
        invariant z <= columns || z == pos.y + 1
        invariant forall k :: pos.y < k < z && k < columns ==> !grid[pos.x, k].IsOccupied
      {
        if grid[pos.x, z].IsOccupied {
          return false;
        }
        z := z + 1;
      }
      return true;
    }

    /** No occupied cell after `pos` along its row of the array. */
    ghost predicate ClearRun(pos: Pos)
      requires Generated()
      requires pos.y + 1 < columns ==> 0 <= pos.x < rows && pos.y >= -1
      reads this, grid, set r, c | 0 <= r < rows && 0 <= c < columns :: grid[r, c]
    {
      forall z :: pos.y < z < columns ==> !grid[pos.x, z].IsOccupied
    }

    /** `IsWaitingAreaFull`: four or more characters wait. */
    function IsWaitingAreaFull(): (full: bool)
      reads this
      ensures full <==> |waitingAreaCharacters| >= WaitingAreaLimit
    {
      |waitingAreaCharacters| >= 4
    }

    /** `AddCharacterToWaitingArea`: appended unless already present; the limit is not checked here. */
    method AddCharacterToWaitingArea(character: Character)
      modifies this`waitingAreaCharacters
      ensures waitingAreaCharacters == Lists.AddIfAbsent(old(waitingAreaCharacters), character)
      ensures Lists.NoDuplicates(old(waitingAreaCharacters)) ==> Lists.NoDuplicates(waitingAreaCharacters)
    {
      if character !in waitingAreaCharacters {
        waitingAreaCharacters := waitingAreaCharacters + [character];
      }
    }

    /** `RemoveCharacterFromWaitingArea`: the first occurrence goes; absent characters change nothing. */
    method RemoveCharacterFromWaitingArea(character: Character)
      modifies this`waitingAreaCharacters
      ensures waitingAreaCharacters == Lists.RemoveFirst(old(waitingAreaCharacters), character)
    {
      if character in waitingAreaCharacters {
        waitingAreaCharacters := Lists.RemoveFirst(waitingAreaCharacters, character);
      }
    }
  }
}
