/**
  * The play-screen puzzle object (src/objects/puzzle.ts) without its
  * rendering: the board geometry check, the pixel-to-cell mapping, the
  * solution decoder, the solved check and the pointer-driven state machine.
  *
  * The state machine is stated twice: once as pure step functions on a
  * `PuzzleState` value, about which the lemmas are proved, and once as the
  * class `Puzzle`, whose fields the handlers update in place and whose
  * methods are proved to move the object exactly as the step functions say.
  */
module PuzzleObject {
  import opened Types
  import opened Strings

  // ---------------------------------------------------------------------
  // Board geometry (class PuzzleDim, class PuzzleConfig)
  // ---------------------------------------------------------------------

  /** The board's pixel geometry; the font and padding offsets only place text and sprites. */
  datatype Dim = Dim(unitSpace: int, width: int, height: int, left: int, top: int, right: int, bottom: int)

  /** The one layout the game defines. */
  const TenByTen := Dim(40, 400, 400, 300, 180, 700, 580)

  datatype ConfigError = NoDimensions(size: seq<int>)

  /**
    * The PuzzleDim constructor: a board exists only for `size[ROW] == 10` and
    * `size[COL] == 10`; any other size throws, naming the size. It then
    * covers 10 cells of `unitSpace` pixels along each axis.
    */
  function PuzzleDim(size: seq<int>): (r: Result<Dim, ConfigError>)
    ensures r.Ok? <==> |size| > COL && size[ROW] == 10 && size[COL] == 10
    ensures r.Err? ==> r.error == NoDimensions(size)
    ensures r.Ok? ==> var d := r.value;
                      && d.unitSpace > 0
                      && d.width == 10 * d.unitSpace && d.right == d.left + d.width
                      && d.height == 10 * d.unitSpace && d.bottom == d.top + d.height
  {
    if |size| > COL && size[ROW] == 10 && size[COL] == 10 then Ok(TenByTen)
    else Err(NoDimensions(size))
  }

  datatype PuzzleConfig = PuzzleConfig(data: PuzzleData, dim: Dim)

  /** The PuzzleConfig constructor: fails exactly when PuzzleDim does. */
  function NewPuzzleConfig(data: PuzzleData): (r: Result<PuzzleConfig, ConfigError>)
    ensures r.Ok? <==> |data.size| > COL && data.size[ROW] == 10 && data.size[COL] == 10
    ensures r.Ok? ==> r.value.data == data && r.value.dim == TenByTen
  {
    match PuzzleDim(data.size)
    case Ok(dim) => Ok(PuzzleConfig(data, dim))
    case Err(e) => Err(e)
  }

  // ---------------------------------------------------------------------
  // Pixel position to cell (inSquare)
  // ---------------------------------------------------------------------

  /**
    * inSquare exactly as written: the bounds test is inclusive on all four
    * sides, so a pointer on the right or bottom border line maps to index 10,
    * one past the grid.
    */
  function InSquareAsWritten(dim: Dim, x: real, y: real): Option<Coord>
    requires dim.unitSpace > 0
  {
    if x < dim.left as real || x > dim.right as real || y < dim.top as real || y > dim.bottom as real then None
    else Some(Coord(((x - dim.left as real) / dim.unitSpace as real).Floor,
                    ((y - dim.top as real) / dim.unitSpace as real).Floor))
  }

  /** A pointer on the right border of the board is mapped to column 10, which no row has. */
  lemma InSquareAsWrittenLeavesGrid()
    ensures InSquareAsWritten(TenByTen, 700.0, 180.0) == Some(Coord(10, 0))
    ensures InSquareAsWritten(TenByTen, 300.0, 580.0) == Some(Coord(0, 10))
  {
  }

  /**
    * inSquare as evidently intended: half-open bounds `[left, right) x [top, bottom)`.
    * No cell for a point outside the board; otherwise the cell containing it.
    */
  function InSquare(dim: Dim, x: real, y: real): (r: Option<Coord>)
    requires dim.unitSpace > 0
    ensures r.None? <==> !(dim.left as real <= x < dim.right as real && dim.top as real <= y < dim.bottom as real)
    ensures r.Some? ==> 0 <= r.value.x && 0 <= r.value.y
  {
    if x < dim.left as real || x >= dim.right as real || y < dim.top as real || y >= dim.bottom as real then None
    else Some(Coord(((x - dim.left as real) / dim.unitSpace as real).Floor,
                    ((y - dim.top as real) / dim.unitSpace as real).Floor))
  }

  /** On the 10x10 board the cell returned is in 0..9 on both axes and contains the pointer. */
  lemma InSquareTenByTen(x: real, y: real)
    requires InSquare(TenByTen, x, y).Some?
    ensures var c := InSquare(TenByTen, x, y).value;
            && 0 <= c.x < 10 && 0 <= c.y < 10
            && (300 + 40 * c.x) as real <= x < (300 + 40 * (c.x + 1)) as real
            && (180 + 40 * c.y) as real <= y < (180 + 40 * (c.y + 1)) as real
  {
    var c := InSquare(TenByTen, x, y).value;
    var qx, qy := (x - 300.0) / 40.0, (y - 180.0) / 40.0;
    assert c.x == qx.Floor && c.y == qy.Floor;
    assert c.x as real <= qx < c.x as real + 1.0;
    assert c.y as real <= qy < c.y as real + 1.0;
  }

  /** Away from the right and bottom border lines the written and the intended mapping agree. */
  lemma InSquareAgreesOffBorder(dim: Dim, x: real, y: real)
    requires dim.unitSpace > 0
    requires x != dim.right as real && y != dim.bottom as real
    ensures InSquare(dim, x, y) == InSquareAsWritten(dim, x, y)
  {
  }

  // ---------------------------------------------------------------------
  // Solution decoding (parseSolution) and the solved check (isSolved)
  // ---------------------------------------------------------------------

  /**
    * One solution string decoded as parseSolution does: whitespace removed,
    * then `'1'` becomes FILL and every other character UNSOLVED.
    */
  function ParseRow(rowText: string): (r: seq<Value>)
    ensures |r| == |StripWhitespace(rowText)|
    ensures forall i :: 0 <= i < |r| ==> r[i] != X
    ensures forall i :: 0 <= i < |r| ==> (r[i] == Fill <==> StripWhitespace(rowText)[i] == '1')
  {
    var t := StripWhitespace(rowText);
    seq(|t|, i requires 0 <= i < |t| => if t[i] == '1' then Fill else Unsolved)
  }

  /**
    * `solution[y][x] === FILL` in the source; a cell past the end of a short
    * solution row reads `undefined`, which is not FILL.
    */
  predicate SolutionFilled(solution: seq<seq<Value>>, y: int, x: int) {
    0 <= y < |solution| && 0 <= x < |solution[y]| && solution[y][x] == Fill
  }

  predicate WellShaped(cells: seq<seq<Value>>, rows: nat, cols: nat) {
    |cells| == rows && forall y :: 0 <= y < rows ==> |cells[y]| == cols
  }

  /**
    * What isSolved returns true for: every solution row it visits exists
    * (a missing row makes the source throw, which leaves the state as a
    * `false` would), and on every cell of the board FILL in the solution
    * coincides with FILL on the board.
    */
  predicate Matches(rows: nat, cols: nat, cells: seq<seq<Value>>, solution: seq<seq<Value>>)
    requires WellShaped(cells, rows, cols)
  {
    && (cols > 0 ==> rows <= |solution|)
    && forall y, x :: 0 <= y < rows && 0 <= x < cols ==> (SolutionFilled(solution, y, x) <==> cells[y][x] == Fill)
  }

  /** The solved check sees only filled-ness: X and UNSOLVED on the board are interchangeable. */
  lemma MatchesIgnoresCrosses(rows: nat, cols: nat, a: seq<seq<Value>>, b: seq<seq<Value>>, solution: seq<seq<Value>>)
    requires WellShaped(a, rows, cols) && WellShaped(b, rows, cols)
    requires forall y, x :: 0 <= y < rows && 0 <= x < cols ==> (a[y][x] == Fill <==> b[y][x] == Fill)
    ensures Matches(rows, cols, a, solution) <==> Matches(rows, cols, b, solution)
  {
  }

  // ---------------------------------------------------------------------
  // The interaction state machine, as pure step functions
  // ---------------------------------------------------------------------

  /** The fields of a Puzzle that its handlers read and write. */
  datatype PuzzleState = PuzzleState(
    rows: nat,
    cols: nat,
    cells: seq<seq<Value>>,
    brush: Value,
    touch: Coord,
    solution: seq<seq<Value>>,
    solved: bool)

  predicate Wf(s: PuzzleState) {
    WellShaped(s.cells, s.rows, s.cols)
  }

  predicate InGrid(s: PuzzleState, c: Coord) {
    0 <= c.y < s.rows && 0 <= c.x < s.cols
  }

  /** The board of a new puzzle: every cell UNSOLVED. */
  function BlankCells(rows: nat, cols: nat): (cells: seq<seq<Value>>)
    ensures WellShaped(cells, rows, cols)
    ensures forall y, x :: 0 <= y < rows && 0 <= x < cols ==> cells[y][x] == Unsolved
  {
    seq(rows, _ => seq(cols, _ => Unsolved))
  }

  /**
    * The state right after the constructor: a blank board, not solved, and,
    * although no pointer is down, brush FILL and touch (0, 0).
    */
  function Initial(rows: nat, cols: nat, solution: seq<seq<Value>>): PuzzleState {
    PuzzleState(rows, cols, BlankCells(rows, cols), Fill, Coord(0, 0), solution, false)
  }

  /** The only cells two boards of one shape disagree on are at `c`. */
  predicate SameExcept(a: seq<seq<Value>>, b: seq<seq<Value>>, rows: nat, cols: nat, c: Coord)
    requires WellShaped(a, rows, cols) && WellShaped(b, rows, cols)
  {
    forall y, x :: 0 <= y < rows && 0 <= x < cols && (y != c.y || x != c.x) ==> a[y][x] == b[y][x]
  }

  /**
    * setSquare: writes `v` into `c` and into no other cell, then sets
    * `solved` if the board now matches; `solved` is never cleared.
    */
  function SetSquareStep(s: PuzzleState, c: Coord, v: Value): (r: PuzzleState)
    requires Wf(s) && InGrid(s, c)
    ensures Wf(r) && r.rows == s.rows && r.cols == s.cols && r.solution == s.solution
    ensures r.brush == s.brush && r.touch == s.touch
    ensures r.cells[c.y][c.x] == v && SameExcept(r.cells, s.cells, s.rows, s.cols, c)
    ensures r.solved <==> s.solved || Matches(r.rows, r.cols, r.cells, r.solution)
  {
    var cells := s.cells[c.y := s.cells[c.y][c.x := v]];
    s.(cells := cells, solved := s.solved || Matches(s.rows, s.cols, cells, s.solution))
  }

  /** The brush a press picks from the pressed cell: UNSOLVED -> FILL -> X -> UNSOLVED. */
  function NextBrush(cur: Value): (b: Value)
    ensures b != cur
  {
    if cur == Unsolved then Fill
    else if cur == Fill then X
    else Unsolved
  }

  lemma NextBrushCycle(v: Value)
    ensures NextBrush(Unsolved) == Fill && NextBrush(Fill) == X && NextBrush(X) == Unsolved
    ensures NextBrush(NextBrush(NextBrush(v))) == v
  {
  }

  /**
    * onPointerDown on the cell `coord` the pointer is over (None: off the
    * board). Solved or off the board: nothing changes. Otherwise the brush
    * becomes the cyclic successor of the pressed cell, the touch moves to that
    * cell, and the brush is written into that cell only.
    */
  function PointerDownStep(s: PuzzleState, coord: Option<Coord>): (r: PuzzleState)
    requires Wf(s) && (coord.Some? ==> InGrid(s, coord.value))
    ensures Wf(r) && r.rows == s.rows && r.cols == s.cols && r.solution == s.solution
    ensures s.solved || coord.None? ==> r == s
    ensures !s.solved && coord.Some? ==>
              var c := coord.value;
              && r.brush == NextBrush(s.cells[c.y][c.x])
              && r.touch == c
              && r.cells[c.y][c.x] == r.brush
              && SameExcept(r.cells, s.cells, s.rows, s.cols, c)
              && (r.solved <==> Matches(r.rows, r.cols, r.cells, r.solution))
  {
    if s.solved || coord.None? then s
    else
      var c := coord.value;
      var brush := NextBrush(s.cells[c.y][c.x]);
      SetSquareStep(s.(brush := brush, touch := c), c, brush)
  }

  /**
    * onPointerMove over `coord` with the button `isDown`. Only a held button
    * over a cell other than the last one touched does anything: the touch
    * moves there, and the brush is written into it when the brush is
    * UNSOLVED or the cell is UNSOLVED. The brush itself never changes.
    */
  function PointerMoveStep(s: PuzzleState, coord: Option<Coord>, isDown: bool): (r: PuzzleState)
    requires Wf(s) && (coord.Some? ==> InGrid(s, coord.value))
    ensures Wf(r) && r.rows == s.rows && r.cols == s.cols && r.solution == s.solution
    ensures r.brush == s.brush
    ensures s.solved || coord.None? || !isDown || coord.value == s.touch ==> r == s
    ensures !s.solved && coord.Some? && isDown && coord.value != s.touch ==>
              var c := coord.value;
              var cur := s.cells[c.y][c.x];
              && r.touch == c
              && SameExcept(r.cells, s.cells, s.rows, s.cols, c)
              && r.cells[c.y][c.x] == (if s.brush == Unsolved || cur == Unsolved then s.brush else cur)
              && (if s.brush == Unsolved || cur == Unsolved
                  then r.solved <==> Matches(r.rows, r.cols, r.cells, r.solution)
                  else !r.solved)
  {
    if s.solved || coord.None? || !isDown then s
    else
      var c := coord.value;
      if c == s.touch then s
      else
        var cur := s.cells[c.y][c.x];
        if s.brush == Unsolved || cur == Unsolved then SetSquareStep(s.(touch := c), c, s.brush)
        else s.(touch := c)
  }

  /** onPointerUp: forgets the touch and the brush, on a solved puzzle too; the board is untouched. */
  function PointerUpStep(s: PuzzleState): (r: PuzzleState)
    ensures r.cells == s.cells && r.solved == s.solved && r.solution == s.solution
    ensures r.rows == s.rows && r.cols == s.cols
    ensures r.touch == Coord(-1, -1) && r.brush == Unsolved
  {
    s.(touch := Coord(-1, -1), brush := Unsolved)
  }

  // ---------------------------------------------------------------------
  // Sequences of pointer events
  // ---------------------------------------------------------------------

  /** A pointer event as the game scene forwards it: pixel position and button state. */
  datatype PointerEvent = Down(x: real, y: real) | Move(x: real, y: real, isDown: bool) | Up

  /** The states the handlers run on: a 10x10 board. */
  predicate OnBoard(s: PuzzleState) {
    Wf(s) && s.rows == 10 && s.cols == 10
  }

  function Step(s: PuzzleState, e: PointerEvent): (r: PuzzleState)
    requires OnBoard(s)
    ensures OnBoard(r) && r.solution == s.solution
  {
    match e
    case Down(x, y) =>
      var coord := InSquare(TenByTen, x, y);
      if coord.Some? then InSquareTenByTen(x, y); PointerDownStep(s, coord)
      else PointerDownStep(s, coord)
    case Move(x, y, isDown) =>
      var coord := InSquare(TenByTen, x, y);
      if coord.Some? then InSquareTenByTen(x, y); PointerMoveStep(s, coord, isDown)
      else PointerMoveStep(s, coord, isDown)
    case Up => PointerUpStep(s)
  }

  /** The state after handling `events` in order, one at a time. */
  function Run(s: PuzzleState, events: seq<PointerEvent>): (r: PuzzleState)
    requires OnBoard(s)
    ensures OnBoard(r) && r.solution == s.solution
    decreases |events|
  {
    if events == [] then s else Run(Step(s, events[0]), events[1..])
  }

  lemma {:induction false} RunAppend(s: PuzzleState, a: seq<PointerEvent>, b: seq<PointerEvent>)
    requires OnBoard(s)
    ensures Run(s, a + b) == Run(Run(s, a), b)
    decreases |a|
  {
    if a == [] {
      assert a + b == b;
    } else {
      assert (a + b)[0] == a[0] && (a + b)[1..] == a[1..] + b;
      RunAppend(Step(s, a[0]), a[1..], b);
    }
  }

  /** Once solved, no sequence of events changes the board or clears `solved`. */
  lemma {:induction false} SolvedIsFinal(s: PuzzleState, events: seq<PointerEvent>)
    requires OnBoard(s) && s.solved
    ensures Run(s, events).solved && Run(s, events).cells == s.cells
    decreases |events|
  {
    if events != [] {
      var t := Step(s, events[0]);
      assert t.solved && t.cells == s.cells;
      SolvedIsFinal(t, events[1..]);
    }
  }

  /** `solved` is monotone along any interaction: what was solved after `a` stays solved after `a + b`. */
  lemma SolvedIsMonotone(s: PuzzleState, a: seq<PointerEvent>, b: seq<PointerEvent>)
    requires OnBoard(s) && Run(s, a).solved
    ensures Run(s, a + b).solved && Run(s, a + b).cells == Run(s, a).cells
  {
    RunAppend(s, a, b);
    SolvedIsFinal(Run(s, a), b);
  }

  /** Three presses on one cell of an unsolved puzzle write only that cell and cycle it back. */
  lemma ThreePressesOnCell(s: PuzzleState, c: Coord)
    requires Wf(s) && InGrid(s, c)
    requires !PointerDownStep(PointerDownStep(PointerDownStep(s, Some(c)), Some(c)), Some(c)).solved
    ensures PointerDownStep(PointerDownStep(PointerDownStep(s, Some(c)), Some(c)), Some(c)).cells == s.cells
  {
    var s1 := PointerDownStep(s, Some(c));
    var s2 := PointerDownStep(s1, Some(c));
    var s3 := PointerDownStep(s2, Some(c));
    assert !s2.solved && !s1.solved && !s.solved;
    NextBrushCycle(s.cells[c.y][c.x]);
    assert s3.cells[c.y][c.x] == s.cells[c.y][c.x];
    forall y | 0 <= y < s.rows
      ensures s3.cells[y] == s.cells[y]
    {
      assert forall x :: 0 <= x < s.cols ==> s3.cells[y][x] == s.cells[y][x];
    }
  }

  /**
    * Three presses at one pointer position put its cell back, and so the
    * whole board, unless the puzzle got solved on the way.
    */
  lemma ThreePressesRestore(s: PuzzleState, x: real, y: real)
    requires OnBoard(s)
    requires !Step(Step(Step(s, Down(x, y)), Down(x, y)), Down(x, y)).solved
    ensures Step(Step(Step(s, Down(x, y)), Down(x, y)), Down(x, y)).cells == s.cells
  {
    var coord := InSquare(TenByTen, x, y);
    if coord.Some? {
      InSquareTenByTen(x, y);
      var s1 := PointerDownStep(s, coord);
      var s2 := PointerDownStep(s1, coord);
      assert Step(s, Down(x, y)) == s1;
      assert Step(s1, Down(x, y)) == s2;
      assert Step(s2, Down(x, y)) == PointerDownStep(s2, coord);
      ThreePressesOnCell(s, coord.value);
    }
  }

  // ---------------------------------------------------------------------
  // The Puzzle object
  // ---------------------------------------------------------------------

  class Puzzle {
    const config: PuzzleConfig
    const rows: nat
    const cols: nat
    /** squareValues[y, x]: the board, allocated once by the constructor. */
    const squareValues: array2<Value>
    /** The board as a value, kept equal to `squareValues`. */
    ghost var cells: seq<seq<Value>>
    var activeBrush: Value
    var curTouch: Coord
    var solution: seq<seq<Value>>
    var solved: bool
    var outroStarted: bool

    ghost predicate Valid()
      reads this, squareValues
    {
      && NewPuzzleConfig(config.data) == Ok(config)
      && rows == 10 && cols == 10
      && squareValues.Length0 == rows && squareValues.Length1 == cols
      && WellShaped(cells, rows, cols)
      && forall y, x :: 0 <= y < rows && 0 <= x < cols ==> squareValues[y, x] == cells[y][x]
    }

    /** The fields the handlers work on, as a value. */
    ghost function Snapshot(): PuzzleState
      reads this
    {
      PuzzleState(rows, cols, cells, activeBrush, curTouch, solution, solved)
    }

    /**
      * Decodes the solution strings; then a 10x10 board of UNSOLVED, brush
      * FILL, touch (0, 0), not solved.
      */
    constructor (config: PuzzleConfig)
      requires NewPuzzleConfig(config.data) == Ok(config)
      ensures Valid() && fresh(squareValues)
      ensures this.config == config && !outroStarted
      ensures Snapshot() == Initial(10, 10, solution)
      ensures |solution| == |config.data.solution|
      ensures forall i :: 0 <= i < |solution| ==> solution[i] == ParseRow(config.data.solution[i])
    {
      this.config := config;
      var rowCount, colCount := config.data.size[ROW], config.data.size[COL];
      rows, cols := rowCount, colCount;
      var grid := new Value[rowCount, colCount];
      for i := 0 to rowCount
        invariant forall y, x :: 0 <= y < i && 0 <= x < colCount ==> grid[y, x] == Unsolved
      {
        for j := 0 to colCount
          invariant forall y, x :: 0 <= y < i && 0 <= x < colCount ==> grid[y, x] == Unsolved
          invariant forall x :: 0 <= x < j ==> grid[i, x] == Unsolved
        {
          grid[i, j] := Unsolved;
        }
      }
      squareValues := grid;
      cells := BlankCells(rowCount, colCount);
      solved, outroStarted := false, false;
      activeBrush, curTouch := Fill, Coord(0, 0);
      new;
      ParseSolution();
    }

    /** parseSolution: one decoded row per solution string, in order. */
    method ParseSolution()
      modifies this`solution
      ensures |solution| == |config.data.solution|
      ensures forall i :: 0 <= i < |solution| ==> solution[i] == ParseRow(config.data.solution[i])
    {
      solution := [];
      var texts := config.data.solution;
      for i := 0 to |texts|
        invariant |solution| == i
        invariant forall k :: 0 <= k < i ==> solution[k] == ParseRow(texts[k])
      {
        solution := solution + [ParseRow(texts[i])];
      }
    }

    /** isSolved: scans the board row by row and stops at the first disagreement. */
    method IsSolved() returns (r: bool)
      requires Valid()
      ensures r == Matches(rows, cols, cells, solution)
    {
      var y := 0;
      while y < rows
        invariant 0 <= y <= rows
        invariant y <= |solution| || cols == 0
        invariant forall i, j :: 0 <= i < y && 0 <= j < cols ==> (SolutionFilled(solution, i, j) <==> cells[i][j] == Fill)
      {
        var x := 0;
        while x < cols
          invariant 0 <= x <= cols
          invariant y < |solution| || x == 0
          invariant forall j :: 0 <= j < x ==> (SolutionFilled(solution, y, j) <==> cells[y][j] == Fill)
        {
          if y >= |solution| {
            // solution[y] is undefined: the source throws, the puzzle does not become solved
            return false;
          }
          var wanted := x < |solution[y]| && solution[y][x] == Fill;
          if wanted && squareValues[y, x] != Fill {
            return false;
          }
          if squareValues[y, x] == Fill && !wanted {
            return false;
          }
          x := x + 1;
        }
        y := y + 1;
      }
      return true;
    }

    /** setSquare: the one place the board changes. */
    method SetSquare(coord: Coord, value: Value)
      requires Valid() && 0 <= coord.y < rows && 0 <= coord.x < cols
      modifies this, squareValues
      ensures Valid() && outroStarted == old(outroStarted)
      ensures Snapshot() == SetSquareStep(old(Snapshot()), coord, value)
    {
      squareValues[coord.y, coord.x] := value;
      cells := cells[coord.y := cells[coord.y][coord.x := value]];
      var done := IsSolved();
      if done {
        solved := true;
      }
    }

    /** onPointerDown at pixel position (x, y). */
    method OnPointerDown(x: real, y: real)
      requires Valid()
      modifies this, squareValues
      ensures Valid() && outroStarted == old(outroStarted)
      ensures Snapshot() == PointerDownStep(old(Snapshot()), InSquare(config.dim, x, y))
    {
      if solved {
        return;
      }
      var coord := InSquare(config.dim, x, y);
      if coord.None? {
        return;
      }
      InSquareTenByTen(x, y);
      var c := coord.value;
      var cur := squareValues[c.y, c.x];
      if cur == Unsolved {
        activeBrush := Fill;
      } else if cur == Fill {
        activeBrush := X;
      } else {
        activeBrush := Unsolved;
      }
      curTouch := c;
      SetSquare(c, activeBrush);
    }

    /** onPointerMove at pixel position (x, y), with the button held or not. */
    method OnPointerMove(x: real, y: real, isDown: bool)
      requires Valid()
      modifies this, squareValues
      ensures Valid() && outroStarted == old(outroStarted)
      ensures Snapshot() == PointerMoveStep(old(Snapshot()), InSquare(config.dim, x, y), isDown)
    {
      if solved {
        return;
      }
      var coord := InSquare(config.dim, x, y);
      if coord.None? {
        // the source hides the hover highlight here
        return;
      }
      if isDown {
        InSquareTenByTen(x, y);
        var c := coord.value;
        if c.x != curTouch.x || c.y != curTouch.y {
          curTouch := c;
          var cur := squareValues[c.y, c.x];
          if activeBrush == Unsolved || cur == Unsolved {
            SetSquare(c, activeBrush);
          }
        }
      }
    }

    /** onPointerUp. */
    method OnPointerUp()
      requires Valid()
      modifies this
      ensures Valid() && outroStarted == old(outroStarted)
      ensures Snapshot() == PointerUpStep(old(Snapshot()))
    {
      curTouch := Coord(-1, -1);
      activeBrush := Unsolved;
    }

    /** update: reports `solved`, and starts the outro once, the first time it is seen. */
    method Update() returns (r: bool)
      requires Valid()
      modifies this`outroStarted
      ensures r == solved
      ensures outroStarted == (old(outroStarted) || solved)
    {
      if solved && !outroStarted {
        outroStarted := true;
      }
      return solved;
    }
  }
}
