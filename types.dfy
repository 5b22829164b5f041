/**
  * The data shapes shared by the game and its two authoring scripts
  * (src/types.ts), plus the Option and Result wrappers the model uses for
  * the source's `null` returns and thrown errors.
  */
module Types {

  datatype Option<+T> = None | Some(value: T)

  datatype Result<+T, +E> = Ok(value: T) | Err(error: E)

  /** The state of one cell; the source numbers them UNSOLVED = 0, X = 1, FILL = 2. */
  datatype Value = Unsolved | X | Fill

  /** Positions of the row entry and the column entry in `size` and `hints` (enum UnitType). */
  const ROW: nat := 0
  const COL: nat := 1

  /** A grid position: `x` is the column, `y` the row. */
  datatype Coord = Coord(x: int, y: int)

  /** A 0/1 number, as the authoring script stores one pixel's classification. */
  type Bit = b: int | 0 <= b <= 1

  /** One puzzle file as the game loads it (type PuzzleData). */
  datatype PuzzleData = PuzzleData(
    name: string,
    id: string,
    date: string,
    image: string,
    finishedImage: string,
    size: seq<int>,
    hints: seq<seq<seq<int>>>,
    solution: seq<string>)

  /** One record of the manifest that drives the puzzle select screen (type PuzzleEntry). */
  datatype PuzzleEntry = PuzzleEntry(
    name: string,
    path: string,
    id: string,
    date: string,
    image: string,
    size: seq<int>)

  /** The manifest itself (type PuzzleManifest). */
  datatype PuzzleManifest = PuzzleManifest(index: seq<string>, puzzles: map<string, PuzzleEntry>)
}
