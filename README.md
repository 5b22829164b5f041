# NonoNoYesGram: a Dafny model of the puzzle engine and its tools

NonoNoYesGram is a browser nonogram game. On the play screen the player
paints a 10x10 grid with the pointer until the filled cells match a hidden
picture, guided by run-length hints for each row and column. Two Node
scripts produce the data. `create_puzzle.js` turns a black-and-white
source image into a puzzle file: id, name and date from the file name, the
solution rows, the hints and the size. `create_manifest.js` collects the
puzzle files into the manifest that drives the puzzle select screen.

The project models three parts of the repository:

- `puzzle.dfy` (module `PuzzleObject`) models the play-screen object of
  `src/objects/puzzle.ts` without its rendering. It covers:
  - the `PuzzleDim` size gate and the `inSquare` pixel-to-cell mapping;
  - `parseSolution` and `isSolved`;
  - the pointer handlers `onPointerDown`, `onPointerMove`, `onPointerUp`,
    `setSquare` and `update`.

  The state machine appears twice. The pure step functions on
  `PuzzleState` carry the lemmas. The class `Puzzle` keeps the board in an
  `array2` and updates its fields in place. Each of its methods is proved
  to move the object exactly as the matching step function says.
- `create_puzzle.dfy` (module `CreatePuzzle`) models the authoring script.
  It covers file-name parsing, pixel classification, and the loops that
  build the bitmap and the solution strings. It also covers the two hint
  scans with their `startValue` sentinel, and the whole derivation.
- `create_manifest.dfy` (module `CreateManifest`) models the manifest
  script: the file filter and the loop that fills `index` and `puzzleMap`.

Two shared modules support them:

- `types.dfy` holds the shapes from `src/types.ts`.
- `strings.dfy` writes out the JavaScript string operations the scripts
  rely on: `indexOf`, `lastIndexOf`, `replace`, `split`, `join`,
  `endsWith` and the `\s` class.

How the outside world enters the model:

- Pointer positions are real numbers; `Math.floor` is `.Floor`.
- The decoded image is a value of type `Pixels`.
- Whether the `.finished.png` sibling exists is a boolean parameter.
- The directory listing is a sequence of names.
- Reading and parsing a puzzle file is a function parameter
  `load: string -> PuzzleData`.
- Two thrown errors become `Err` values of a `Result`: the `PuzzleDim` throw on a size other than 10x10, and the failure on a file name without '-'. A failed image decode is an `Err` too. Other throws are not `Err` values: a missing solution row in `isSolved` becomes `false`, and the errors listed under "## Left out" are not modelled.

## Model

| member | source | states |
|---|---|---|
| PuzzleObject.PuzzleDim | src/objects/puzzle.ts:54-76 | A board exists exactly when `size[ROW] == 10 && size[COL] == 10`. Any other size is an error carrying that size. An accepted board spans 10 cells of `unitSpace` pixels on each axis. |
| PuzzleObject.NewPuzzleConfig | src/objects/puzzle.ts:83-87 | A config exists exactly when PuzzleDim succeeds. It keeps the data and the 10x10 layout. |
| PuzzleObject.InSquare | src/objects/puzzle.ts:327-331 | The corrected mapping: no cell exactly when the point lies outside `[left,right) x [top,bottom)`. Otherwise the indices are non-negative. |
| PuzzleObject.InSquareTenByTen | src/objects/puzzle.ts:327-331 | On the 10x10 board the returned cell is in 0..9 on both axes. Its 40-pixel square contains the point. |
| PuzzleObject.InSquareAsWrittenLeavesGrid | src/objects/puzzle.ts:329-330 | With the bounds as written, the point (700, 180) on the right border maps to column 10. The point (300, 580) on the bottom border maps to row 10. |
| PuzzleObject.InSquareAgreesOffBorder | src/objects/puzzle.ts:329-330 | Off the right and bottom border lines, the written mapping and the corrected one agree. |
| PuzzleObject.ParseRow | src/objects/puzzle.ts:396 | Decoding one solution string gives one value per non-whitespace character. A value is FILL exactly when its character is '1', and UNSOLVED otherwise (never X). |
| PuzzleObject.MatchesIgnoresCrosses | src/objects/puzzle.ts:401-413 | The solved check sees only filled-ness: boards that agree on FILL are solved or unsolved together, whatever their X and UNSOLVED cells. |
| PuzzleObject.BlankCells | src/objects/puzzle.ts:116-119 | The new board has `rows` rows of `cols` cells, all UNSOLVED. |
| PuzzleObject.SetSquareStep | src/objects/puzzle.ts:376-380 | Only the addressed cell changes, and it holds the written value. `solved` becomes true when the board matches afterwards, and is never cleared. |
| PuzzleObject.NextBrush | src/objects/puzzle.ts:359-366 | A press always picks a brush different from the pressed cell's value. |
| PuzzleObject.NextBrushCycle | src/objects/puzzle.ts:359-366 | The brush cycles UNSOLVED to FILL to X to UNSOLVED, so three steps from any value return to it. |
| PuzzleObject.PointerDownStep | src/objects/puzzle.ts:355-369 | When solved or off the board, nothing changes. Otherwise the brush becomes the successor of the pressed cell's value and the touch moves to the cell. The brush is written into that cell only, and `solved` then says whether the board matches. |
| PuzzleObject.PointerMoveStep | src/objects/puzzle.ts:333-353 | The brush never changes. Solved, off the board, button up, or the same cell as before: nothing changes. Otherwise the touch moves to the new cell. That cell takes the brush only when the brush or the cell is UNSOLVED. So a FILL brush never overwrites an X, and an UNSOLVED brush clears any cell. |
| PuzzleObject.PointerUpStep | src/objects/puzzle.ts:371-374 | The touch becomes (-1, -1) and the brush UNSOLVED, on a solved puzzle too. The board and `solved` are untouched. |
| PuzzleObject.Step | src/objects/puzzle.ts:327-374 | Handling one pointer event keeps a well-formed 10x10 board and its solution. |
| PuzzleObject.RunAppend | src/objects/puzzle.ts:333-374 | Handling `a + b` is handling `a`, then `b`. |
| PuzzleObject.SolvedIsFinal | src/objects/puzzle.ts:333-369 | Once solved, no sequence of pointer events changes the board or clears `solved`. |
| PuzzleObject.SolvedIsMonotone | src/objects/puzzle.ts:378-380 | A puzzle solved after events `a` is still solved after `a + b`, with the same board. |
| PuzzleObject.ThreePressesOnCell | src/objects/puzzle.ts:355-369 | Three presses on one cell of an unsolved puzzle give back the original board. |
| PuzzleObject.ThreePressesRestore | src/objects/puzzle.ts:355-369 | Three presses at one pointer position give back the original board, unless the puzzle became solved on the way. |
| PuzzleObject.Puzzle.constructor | src/objects/puzzle.ts:109-121 | The solution strings are decoded in order. The board is 10x10 and all UNSOLVED, `solved` is false, the brush is FILL and the touch is (0, 0). |
| PuzzleObject.Puzzle.ParseSolution | src/objects/puzzle.ts:393-399 | One decoded row per solution string, in order. |
| PuzzleObject.Puzzle.IsSolved | src/objects/puzzle.ts:401-413 | True exactly when, on every board cell, FILL in the solution coincides with FILL on the board. A missing solution row is never solved. |
| PuzzleObject.Puzzle.SetSquare | src/objects/puzzle.ts:376-380 | The object moves as SetSquareStep says, and the array stays in step with the board. |
| PuzzleObject.Puzzle.OnPointerDown | src/objects/puzzle.ts:355-369 | The object moves as PointerDownStep says for the cell under the pointer. |
| PuzzleObject.Puzzle.OnPointerMove | src/objects/puzzle.ts:333-353 | The object moves as PointerMoveStep says for the cell under the pointer. |
| PuzzleObject.Puzzle.OnPointerUp | src/objects/puzzle.ts:371-374 | The object moves as PointerUpStep says. |
| PuzzleObject.Puzzle.Update | src/objects/puzzle.ts:425-431 | Returns `solved`. The outro starts once, the first time the puzzle is seen solved. |
| CreatePuzzle.FileName | scripts/create_puzzle.js:21 | The file name is a suffix of the path that contains no '/', and it is either the whole path or preceded by a '/'. So it is exactly the part after the last '/'. |
| CreatePuzzle.ParseFileName | scripts/create_puzzle.js:21-34 | Succeeds exactly when the base name (without ".png") contains '-'. Otherwise the error names the file. The id and the name contain no '-', and the name contains no '_'. The image path is `../puzzles/images/` plus the file name. Without a finished image, that path is also the finished image; with one, the finished image is that path with its first ".png" replaced by ".finished.png". The output file is `../puzzles/` plus the file name up to its first '.', plus ".json". |
| CreatePuzzle.FileNameParts | scripts/create_puzzle.js:23-31 | The id is the first '-' piece and the name is the second with '_' turned into spaces. Id, name part and date rejoined with '-' give back the base name. For the `{PuzzleID}-{Name}.png` form, with exactly two pieces, the date is empty. |
| CreatePuzzle.PartsRejoin | scripts/create_puzzle.js:23-31 | A string with a '-' is its first piece, '-', its second piece, and then '-' and the rest joined with '-' when there are more pieces. |
| CreatePuzzle.PixelValue | scripts/create_puzzle.js:47-50 | A pixel is 0 exactly when red, green and blue are all 0. Alpha plays no part. |
| CreatePuzzle.Bitmap | scripts/create_puzzle.js:44-52 | `values` has one row per image row and one entry per column, indexed `values[y][x]`. |
| CreatePuzzle.Transpose | scripts/create_puzzle.js:82-100 | Column x of the bitmap as a line: entry y is `values[y][x]`. |
| CreatePuzzle.Chunks | scripts/create_puzzle.js:58 | The groups concatenate to the row text. Each is 1 to 5 characters long, and all but the last are exactly 5. |
| CreatePuzzle.StripJoin | scripts/create_puzzle.js:59 | Removing the whitespace of groups joined by single spaces gives their plain concatenation. |
| CreatePuzzle.SolutionRoundTrip | scripts/create_puzzle.js:54-59 | The game's decoder (src/objects/puzzle.ts:396) turns the solution string of a row into FILL exactly where the row has a 1, UNSOLVED elsewhere. As bits, it gives back the row. |
| CreatePuzzle.Runs | scripts/create_puzzle.js:63-81 | Every run length is positive. |
| CreatePuzzle.TrailingOnes | scripts/create_puzzle.js:74-76 | The line ends with exactly this many 1s. |
| CreatePuzzle.TrailingOnesIs | scripts/create_puzzle.js:74-76 | The length of the trailing run is the only k that fits that description. |
| CreatePuzzle.RunsCloseBlock | scripts/create_puzzle.js:69-76 | Closing a run that started after a 0 (or at the start) appends its length `x - start` to the runs before it. |
| CreatePuzzle.RunsSumIsCount | scripts/create_puzzle.js:63-81 | The run lengths add up to the number of filled cells. |
| CreatePuzzle.RunsFit | scripts/create_puzzle.js:63-81 | The runs, with one gap between neighbours, fit in the line. |
| CreatePuzzle.LineHintsProperties | scripts/create_puzzle.js:63-81 | A hint is `[0]` exactly when the line has no filled cell. Otherwise its entries are positive, sum to the filled cells, and `sum + (len - 1) <= width`. |
| CreatePuzzle.RunsSplitAtZero | scripts/create_puzzle.js:67-72 | A 0 splits a line: the runs of the whole are those of the left part followed by those of the right part. |
| CreatePuzzle.RunsOfOnes | scripts/create_puzzle.js:74-76 | A line of k ones is the single run k. |
| CreatePuzzle.RunsOfZeros | scripts/create_puzzle.js:77-79 | A line of zeros has no run. |
| CreatePuzzle.HintsOfPairs | scripts/create_puzzle.js:63-81 | 11011 gives [2, 2] and 11111 gives [5]. |
| CreatePuzzle.HintsOfAlternating | scripts/create_puzzle.js:63-81 | 10101 gives [1, 1, 1]. |
| CreatePuzzle.HintsOfBlank | scripts/create_puzzle.js:77-79 | 00000 gives [0]. |
| CreatePuzzle.RowHints | scripts/create_puzzle.js:62-81 | The left-to-right scan with the `startValue` sentinel gives, for every row, exactly the hint of that row: its maximal runs of 1s in order, or `[0]`. |
| CreatePuzzle.ScanRow | scripts/create_puzzle.js:64-79 | Scanning one row with the `startValue` sentinel gives exactly that row's hint. |
| CreatePuzzle.ScanColumn | scripts/create_puzzle.js:83-98 | Scanning one column top to bottom gives exactly that column's hint. |
| CreatePuzzle.FinishScan | scripts/create_puzzle.js:74-79 | After the last cell, an open run is closed with `length - start`, and a line without runs gets `[0]`. The result is the line's hint. |
| CreatePuzzle.ScanAdvance | scripts/create_puzzle.js:67-72 | Each step of the scan keeps the scan invariant. When no run is open, the hints so far are the runs of the cells seen. When a run is open, it started after a 0 and holds only 1s. |
| CreatePuzzle.ColumnHints | scripts/create_puzzle.js:82-100 | The separate top-to-bottom scan gives, for every column, the hint of that column of the transposed bitmap. |
| CreatePuzzle.BuildValues | scripts/create_puzzle.js:42-61 | The nested loops build exactly the image's bitmap, and one solution string per row. |
| CreatePuzzle.SolutionDecodesToBitmap | scripts/create_puzzle.js:54-59 | The game decodes the derived solution strings into exactly the image's bitmap. |
| CreatePuzzle.DerivedSizeAxes | scripts/create_puzzle.js:102 | The game loads a derived puzzle exactly when the image is 10x10. In general, `size[ROW]` (the width) equals the number of solution rows exactly when the image is square. |
| CreatePuzzle.CreatePuzzle | scripts/create_puzzle.js:21-113 | A base name without '-' fails before the image is read, and a failed decode gives an error. Otherwise the data carries the file name's fields, `size == [width, height]`, the solution strings, and the row and column hints. Decoded as the game decodes it, the solution is the image's bitmap and is consistent with the hints. |
| CreateManifest.PuzzleFiles | scripts/create_manifest.js:13 | A listed file is kept exactly when it ends in ".json" and is not "all_puzzles.json". |
| CreateManifest.PuzzleFilesAppend | scripts/create_manifest.js:12-13 | The filter keeps listing order: filtering a concatenation filters each part in turn. |
| CreateManifest.CreateManifest | scripts/create_manifest.js:9-26 | The forEach loop builds exactly the fold ManifestOf over the filtered files. |
| CreateManifest.ManifestIndex | scripts/create_manifest.js:12-17 | The index has exactly one entry per processed file, in order, and entry i is `id + "-" + name` of file i. |
| CreateManifest.ManifestKeys | scripts/create_manifest.js:17-18 | The map's keys are exactly the index entries. |
| CreateManifest.ManifestRecordsMatchKeys | scripts/create_manifest.js:16-25 | Every record sits under the long name made of its own id and name. |
| CreateManifest.LastFileWins | scripts/create_manifest.js:18-25 | The record of a long name is that of the last file with that long name. Its path is `../puzzles/` plus the file name and its image is the finished image. Its name, id, date and size are the puzzle's. |
| CreateManifest.LongNameInjective | scripts/create_manifest.js:16 | When ids contain no '-', equal long names mean equal ids and equal names. |
| CreateManifest.LongNameCollision | scripts/create_manifest.js:16 | Ids that contain '-' can collide: ("a-b", "c") and ("a", "b-c") share the long name "a-b-c". |
| CreateManifest.DistinctPuzzlesDistinctIndex | scripts/create_manifest.js:16-17 | Files with distinct (id, name) pairs, and ids without '-' (as the authoring tool writes them), give an index without duplicates. |
| Strings.SplitFirstPiece | scripts/create_puzzle.js:22 | The first piece of a split is the longest prefix without the separator: a prefix of the string, free of the separator, that is either the whole string or followed by the separator. |
| Strings.Split | scripts/create_puzzle.js:23 | `split` on one character gives at least one piece. It gives exactly one when the separator is absent, and no piece contains it. |
| Strings.JoinSplit | scripts/create_puzzle.js:23-31 | Joining the pieces of a split with the same separator gives back the string. |
| Strings.StripWhitespaceAppend | src/objects/puzzle.ts:396 | Removing whitespace distributes over concatenation. |

## Left out

- Rendering in `src/objects/puzzle.ts` is not modelled: the grid lines, the hint text, the hover highlight, the FILL and X sprites, the solution image and the outro tweens. `update` keeps only the once-only `outroStarted` flag.
- `PuzzleStyle` (colours, fonts) and the font and padding fields of `PuzzleDim` are left out: they only place text and sprites.
- Pointer coordinates are exact reals. Floating-point rounding of `(x - left) / unitSpace` is not modelled.
- The scenes, the game bootstrap and the completion record in local storage are outside this model.
- File-system and library calls are inputs: `get-pixels` decoding, `fs.existsSync`, `readdirSync`, `readFileSync` with `JSON.parse`, and `writeFileSync`. The console logging is dropped.
- `CreatePuzzle.CreatePuzzle` returns the data of the puzzle file, not its text. The hand-spliced JSON text depends on `JSON.stringify` formatting and is not modelled.
- `CreatePuzzle.Pixels`: decoded images are assumed to have at least one row and one column (`Decoded`). For a zero-width image the source's `.match` would return null and throw; that case is not modelled.
- `CreatePuzzle.ParseFileName`: the output path is relative to the scripts directory. `__dirname` is not modelled.
- `CreatePuzzle.Chunks` models `/.{1,5}/g` only on text of '0' and '1', which never contains a line terminator.
- `PuzzleObject.Puzzle.IsSolved`: when a solution row is missing, the source throws from inside `setSquare` after the cell is written. The model returns false instead, which leaves the same state: the cell written and `solved` unchanged. The exception itself is not modelled. A cell past the end of a short solution row reads `undefined` in the source, and counts as not filled.
- `PuzzleObject.Puzzle.constructor` requires a config built by `NewPuzzleConfig`. In the source a `PuzzleConfig` for any other size cannot exist, because `PuzzleDim` throws first.
- PuzzleObject.Step, PuzzleObject.Puzzle.OnPointerDown, PuzzleObject.Puzzle.OnPointerMove: these use the corrected `InSquare`, so the border behaviour of the bounds as written (see Findings) is not modelled. There, a press on the right border reads an undefined cell, so it sets `activeBrush` to UNSOLVED. It then sets `curTouch` to (10, y), writes `squareValues[y][10]` and throws at `fills[y][10].setVisible`. A press on the bottom border throws when it reads `squareValues[10][x]`. A drag with the button down onto either border line first moves `curTouch` off the grid. It then throws or, with a brush other than UNSOLVED on the right border, writes nothing.
- The axis convention differs between the two sides. `create_puzzle.js` writes `size = [width, height]`, and the game reads `size[ROW]` as the row count. The two agree only for square images, which includes the only size the game accepts (`CreatePuzzle.DerivedSizeAxes`).

## Findings

| source | as written | input that shows it | evidently intended | confidence | as-written member | corrected member |
|---|---|---|---|---|---|---|
| src/objects/puzzle.ts:329 | `x > dim.right` and `y > dim.bottom` let points on the right and bottom border lines through, so `inSquare` returns index 10, one past the last column or row | pointer at (700, 180) on the 10x10 board gives column 10; (300, 580) gives row 10 | half-open bounds `x >= dim.right`, `y >= dim.bottom`, so that every returned cell is in 0..9 | not executed | PuzzleObject.InSquareAsWrittenLeavesGrid | PuzzleObject.InSquareTenByTen |
