/** The data model the board engine works on (types.ts). */
module Types {

  /** What the player sees of a cell: exactly one of three states (types.ts:2). */
  datatype CellStatus = Hidden | Revealed | Flagged

  /** One square of the grid. `x` is its row and `y` its column; `neighborMines`
      is meaningful only while `isMine` is false (types.ts:4-10). */
  datatype Cell = Cell(x: int, y: int, isMine: bool, status: CellStatus, neighborMines: nat)

  /** The three presets a player can choose (types.ts:12-16). */
  datatype Difficulty = Beginner | Intermediate | Expert

  /** A board's dimensions and the number of mines to place on it (types.ts:18-22). */
  datatype DifficultySettings = DifficultySettings(rows: nat, cols: nat, mines: nat)

  /** The phase of one game: exactly one of four (types.ts:24). */
  datatype GameStatus = Playing | Won | Lost | Ready
}
