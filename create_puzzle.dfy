/**
  * The authoring tool (scripts/create_puzzle.js): from a source image's file
  * name and decoded pixels it derives a puzzle file: name, id and date from
  * the file name, a 0/1 bitmap (black is empty), one solution string per row
  * in groups of five, and run-length hints per row and per column.
  *
  * Reading the image, testing whether a ".finished.png" sibling exists and
  * writing the file are inputs and outputs of `CreatePuzzle`; the exact JSON
  * text is not modelled, only the data it holds.
  */
module CreatePuzzle {
  import opened Types
  import opened Strings
  import PuzzleObject

  // ---------------------------------------------------------------------
  // File name (the puzzle's id, name and date)
  // ---------------------------------------------------------------------

  datatype CreateError =
    | NoNamePart(fileName: string)  // parts[1] is undefined, so parts[1].replace throws
    | ImageNotFound(path: string)   // get-pixels reported an error

  /** What the file name decides; paths are relative to the scripts directory. */
  datatype FileMeta = FileMeta(
    outFile: string,
    name: string,
    id: string,
    date: string,
    image: string,
    finishedImage: string)

  /** The part of the path after its last '/' (the whole path when it has none). */
  function FileName(path: string): (f: string)
    ensures '/' !in f
    ensures EndsWith(path, f) && (|f| < |path| ==> path[|path| - |f| - 1] == '/')
  {
    path[LastIndexOfChar(path, '/') + 1..]
  }

  /** The file name with its first ".png" removed, split on '-'. */
  function NameParts(fileName: string): (parts: seq<string>)
    ensures |parts| >= 1
  {
    Split(ReplaceFirst(fileName, ".png", ""), '-')
  }

  /**
    * The metadata of the puzzle made from `sourceImagePath`: id is the first
    * '-'-separated part, name the second with every '_' turned into a space,
    * date the rest joined back with '-'. A file name without '-' has no second
    * part and fails.
    */
  function ParseFileName(sourceImagePath: string, finishedExists: bool): (r: Result<FileMeta, CreateError>)
    ensures r.Ok? <==> '-' in ReplaceFirst(FileName(sourceImagePath), ".png", "")
    ensures r.Err? ==> r.error == NoNamePart(FileName(sourceImagePath))
    ensures r.Ok? ==> '-' !in r.value.id && '-' !in r.value.name && '_' !in r.value.name
    ensures r.Ok? ==> r.value.image == "../puzzles/images/" + FileName(sourceImagePath)
    ensures r.Ok? && !finishedExists ==> r.value.finishedImage == r.value.image
    ensures r.Ok? && finishedExists ==> r.value.finishedImage == ReplaceFirst(r.value.image, ".png", ".finished.png")
    ensures r.Ok? ==> r.value.outFile == "../puzzles/" + Split(FileName(sourceImagePath), '.')[0] + ".json"
  {
    var fileName := FileName(sourceImagePath);
    var parts := NameParts(fileName);
    var imagePath := "../puzzles/images/" + fileName;
    var finishedPath := ReplaceFirst(imagePath, ".png", ".finished.png");
    if |parts| < 2 then Err(NoNamePart(fileName))
    else
      var name := ReplaceAllChar(parts[1], '_', ' ');
      assert '-' !in name by {
        assert forall i :: 0 <= i < |name| ==> name[i] == ' ' || name[i] == parts[1][i];
      }
      Ok(FileMeta(
        "../puzzles/" + Split(fileName, '.')[0] + ".json",
        name,
        parts[0],
        Join(parts[2..], "-"),
        imagePath,
        if finishedExists then finishedPath else imagePath))
  }

  /**
    * Nothing of the file name is lost: the id, the name part (before its '_'
    * are replaced) and the date put back together with '-' give the file
    * name without its ".png".
    */
  lemma FileNameParts(sourceImagePath: string, finishedExists: bool)
    requires '-' in ReplaceFirst(FileName(sourceImagePath), ".png", "")
    ensures var m := ParseFileName(sourceImagePath, finishedExists).value;
            var parts := NameParts(FileName(sourceImagePath));
            && m.id == parts[0]
            && m.name == ReplaceAllChar(parts[1], '_', ' ')
            && ReplaceFirst(FileName(sourceImagePath), ".png", "")
               == m.id + "-" + parts[1] + (if |parts| > 2 then "-" + m.date else "")
            && (|parts| == 2 ==> m.date == "")
  {
    var parts := NameParts(FileName(sourceImagePath));
    PartsRejoin(ReplaceFirst(FileName(sourceImagePath), ".png", ""));
  }

  /** A string with a '-' is its first piece, '-', its second piece and, if there are more, '-' and the rest. */
  lemma PartsRejoin(base: string)
    requires '-' in base
    ensures var parts := Split(base, '-');
            base == parts[0] + "-" + parts[1] + (if |parts| > 2 then "-" + Join(parts[2..], "-") else "")
  {
    JoinSplit(base, '-');
    JoinFirstTwo(Split(base, '-'), "-");
  }

  // ---------------------------------------------------------------------
  // Pixels and the bitmap
  // ---------------------------------------------------------------------

  type Channel = c: int | 0 <= c < 256

  datatype Rgba = Rgba(r: Channel, g: Channel, b: Channel, a: Channel)

  /**
    * A decoded image as get-pixels delivers it (shape [width, height, 4]);
    * `data[y][x]` is the pixel in column x of row y. Decoded images have at
    * least one row and one column.
    */
  datatype Pixels = Pixels(width: nat, height: nat, data: seq<seq<Rgba>>)

  predicate Decoded(p: Pixels) {
    && p.width >= 1 && p.height >= 1
    && |p.data| == p.height
    && forall y :: 0 <= y < p.height ==> |p.data[y]| == p.width
  }

  /** pixels.get(x, y, channel). */
  function Get(p: Pixels, x: nat, y: nat, channel: nat): Channel
    requires Decoded(p) && x < p.width && y < p.height && channel < 4
  {
    var px := p.data[y][x];
    if channel == 0 then px.r else if channel == 1 then px.g else if channel == 2 then px.b else px.a
  }

  /** One pixel's value: 0 exactly when red, green and blue are all 0; alpha plays no part. */
  function PixelValue(p: Pixels, x: nat, y: nat): (v: Bit)
    requires Decoded(p) && x < p.width && y < p.height
    ensures v == 0 <==> p.data[y][x].r == 0 && p.data[y][x].g == 0 && p.data[y][x].b == 0
  {
    var val := Get(p, x, y, 0) + Get(p, x, y, 1) + Get(p, x, y, 2);
    if val == 0 then 0 else 1
  }

  predicate IsGrid(values: seq<seq<Bit>>, width: nat, height: nat) {
    |values| == height && forall y :: 0 <= y < height ==> |values[y]| == width
  }

  /** The image's bitmap, `values[y][x]`. */
  function Bitmap(p: Pixels): (values: seq<seq<Bit>>)
    requires Decoded(p)
    ensures IsGrid(values, p.width, p.height)
    ensures forall y, x :: 0 <= y < p.height && 0 <= x < p.width ==> values[y][x] == PixelValue(p, x, y)
  {
    seq(p.height, y requires 0 <= y < p.height =>
      seq(p.width, x requires 0 <= x < p.width => PixelValue(p, x, y)))
  }

  /** The columns of a bitmap as rows: `t[x][y] == values[y][x]`. */
  function Transpose(values: seq<seq<Bit>>, width: nat, height: nat): (t: seq<seq<Bit>>)
    requires IsGrid(values, width, height)
    ensures IsGrid(t, height, width)
    ensures forall x, y :: 0 <= x < width && 0 <= y < height ==> t[x][y] == values[y][x]
  {
    seq(width, x requires 0 <= x < width =>
      seq(height, y requires 0 <= y < height => values[y][x]))
  }

  // ---------------------------------------------------------------------
  // Solution strings
  // ---------------------------------------------------------------------

  /** One character per cell, in order: '1' for each 1 and '0' for each 0. */
  function Digits(row: seq<Bit>): (s: string)
    ensures |s| == |row|
  {
    seq(|row|, i requires 0 <= i < |row| => if row[i] == 1 then '1' else '0')
  }

  /**
    * `s.match(/.{1,5}/g)` on a non-empty string without line terminators:
    * consecutive groups of five, the last one 1 to 5 long, together making up `s`.
    */
  function Chunks(s: string): (groups: seq<string>)
    requires |s| > 0
    ensures |groups| >= 1 && Concat(groups) == s
    ensures forall i :: 0 <= i < |groups| ==> 1 <= |groups[i]| <= 5
    ensures forall i :: 0 <= i < |groups| - 1 ==> |groups[i]| == 5
    decreases |s|
  {
    if |s| <= 5 then
      assert Concat([s]) == s + Concat([]);
      [s]
    else
      var rest := Chunks(s[5..]);
      assert ([s[..5]] + rest)[1..] == rest;
      assert s == s[..5] + s[5..];
      [s[..5]] + rest
  }

  lemma {:induction false} ChunksHaveNoWhitespace(s: string)
    requires |s| > 0
    requires NoWhitespace(s)
    ensures forall i :: 0 <= i < |Chunks(s)| ==> NoWhitespace(Chunks(s)[i])
    decreases |s|
  {
    if |s| > 5 {
      var rest := Chunks(s[5..]);
      ChunksHaveNoWhitespace(s[5..]);
      assert Chunks(s) == [s[..5]] + rest;
      forall i | 0 <= i < |Chunks(s)|
        ensures NoWhitespace(Chunks(s)[i])
      {
        if i > 0 {
          assert Chunks(s)[i] == rest[i - 1];
        }
      }
    }
  }

  /** One row's solution string: its digits in groups of five separated by single spaces. */
  function SolutionText(row: seq<Bit>): string
    requires |row| > 0
  {
    Join(Chunks(Digits(row)), " ")
  }

  /** Removing the spaces of a " "-join of whitespace-free groups is plain concatenation. */
  lemma {:induction false} StripJoin(groups: seq<string>)
    requires forall i :: 0 <= i < |groups| ==> NoWhitespace(groups[i])
    ensures StripWhitespace(Join(groups, " ")) == Concat(groups)
  {
    if |groups| == 1 {
      StripWhitespaceKeeps(groups[0]);
      assert Concat(groups) == groups[0] + Concat([]);
    } else if |groups| > 1 {
      var g, rest := groups[0], groups[1..];
      var tail := Join(rest, " ");
      assert Join(groups, " ") == (g + " ") + tail;
      assert Concat(groups) == g + Concat(rest);
      StripWhitespaceAppend(g + " ", tail);
      StripWhitespaceAppend(g, " ");
      assert StripWhitespace(" ") == "";
      StripWhitespaceKeeps(g);
      StripJoin(rest);
    }
  }

  /** A decoded row as bits: FILL is 1, anything else 0. */
  function FilledBits(vs: seq<Value>): (bits: seq<Bit>)
    ensures |bits| == |vs|
  {
    seq(|vs|, i requires 0 <= i < |vs| => if vs[i] == Fill then 1 else 0)
  }

  /**
    * The solution string of a row, decoded by the game (parseSolution),
    * is FILL exactly where the row has a 1 and UNSOLVED elsewhere.
    */
  lemma SolutionRoundTrip(row: seq<Bit>)
    requires |row| > 0
    ensures PuzzleObject.ParseRow(SolutionText(row))
            == seq(|row|, i requires 0 <= i < |row| => if row[i] == 1 then Fill else Unsolved)
    ensures FilledBits(PuzzleObject.ParseRow(SolutionText(row))) == row
  {
    var d := Digits(row);
    ChunksHaveNoWhitespace(d);
    StripJoin(Chunks(d));
    assert StripWhitespace(SolutionText(row)) == d;
  }

  // ---------------------------------------------------------------------
  // Run-length hints
  // ---------------------------------------------------------------------

  /** The number of 1s in a line. */
  function Count(line: seq<Bit>): nat {
    if line == [] then 0 else Count(line[..|line| - 1]) + line[|line| - 1]
  }

  function Sum(xs: seq<int>): int {
    if xs == [] then 0 else Sum(xs[..|xs| - 1]) + xs[|xs| - 1]
  }

  /** The length of the run of 1s the line ends with. */
  function TrailingOnes(line: seq<Bit>): (k: nat)
    ensures k <= |line|
    ensures forall i :: |line| - k <= i < |line| ==> line[i] == 1
    ensures k < |line| ==> line[|line| - 1 - k] == 0
  {
    if line == [] || line[|line| - 1] == 0 then 0
    else TrailingOnes(line[..|line| - 1]) + 1
  }

  /**
    * The lengths of the maximal runs of 1s in a line, left to right: drop a
    * trailing 0, or take off the trailing run and put its length last.
    */
  function Runs(line: seq<Bit>): (runs: seq<int>)
    ensures forall i :: 0 <= i < |runs| ==> runs[i] > 0
    decreases |line|
  {
    if line == [] then []
    else if line[|line| - 1] == 0 then Runs(line[..|line| - 1])
    else
      var k := TrailingOnes(line);
      Runs(line[..|line| - k]) + [k]
  }

  /** A line's hint: its runs, or the single value 0 for a line without a filled cell. */
  function LineHints(line: seq<Bit>): (hints: seq<int>)
    ensures |hints| >= 1
  {
    var runs := Runs(line);
    if runs == [] then [0] else runs
  }

  /** TrailingOnes is the unique k its postconditions describe. */
  lemma {:induction false} TrailingOnesIs(line: seq<Bit>, k: nat)
    requires k <= |line|
    requires forall i :: |line| - k <= i < |line| ==> line[i] == 1
    requires k < |line| ==> line[|line| - 1 - k] == 0
    ensures TrailingOnes(line) == k
    decreases |line|
  {
    if k > 0 {
      var init := line[..|line| - 1];
      TrailingOnesIs(init, k - 1);
    }
  }

  /** A 0 at the end adds no run. */
  lemma RunsAfterZero(line: seq<Bit>, x: nat)
    requires x < |line| && line[x] == 0
    ensures Runs(line[..x + 1]) == Runs(line[..x])
  {
    assert line[..x + 1][..x] == line[..x];
  }

  /** A run of 1s over [start, x), after a 0 or the line's start, ends the line's runs up to x. */
  lemma RunsCloseBlock(line: seq<Bit>, start: nat, x: nat)
    requires start < x <= |line|
    requires forall i :: start <= i < x ==> line[i] == 1
    requires start > 0 ==> line[start - 1] == 0
    ensures Runs(line[..x]) == Runs(line[..start]) + [x - start]
  {
    var l := line[..x];
    TrailingOnesIs(l, x - start);
    assert l[..|l| - (x - start)] == line[..start];
  }

  lemma {:induction false} CountTrailing(line: seq<Bit>, k: nat)
    requires k <= |line|
    requires forall i :: |line| - k <= i < |line| ==> line[i] == 1
    ensures Count(line) == Count(line[..|line| - k]) + k
    decreases k
  {
    if k > 0 {
      var init := line[..|line| - 1];
      assert line[|line| - 1] == 1;
      assert Count(line) == Count(init) + 1;
      CountTrailing(init, k - 1);
      assert init[..|init| - (k - 1)] == line[..|line| - k];
    } else {
      assert line[..|line|] == line;
    }
  }

  lemma SumSnoc(xs: seq<int>, k: int)
    ensures Sum(xs + [k]) == Sum(xs) + k
  {
    assert (xs + [k])[..|xs|] == xs;
  }

  /** The hints account for every filled cell: the run lengths add up to the count of 1s. */
  lemma {:induction false} RunsSumIsCount(line: seq<Bit>)
    ensures Sum(Runs(line)) == Count(line)
    decreases |line|
  {
    if line != [] {
      var init := line[..|line| - 1];
      if line[|line| - 1] == 0 {
        RunsSumIsCount(init);
      } else {
        var k := TrailingOnes(line);
        var p := line[..|line| - k];
        RunsSumIsCount(p);
        SumSnoc(Runs(p), k);
        CountTrailing(line, k);
      }
    }
  }

  /** The runs and the one-cell gaps between them fit in the line. */
  lemma {:induction false} RunsFit(line: seq<Bit>)
    ensures Sum(Runs(line)) + |Runs(line)| <= |line| + (if line != [] && line[|line| - 1] == 1 then 1 else 0)
    decreases |line|
  {
    if line != [] {
      var init := line[..|line| - 1];
      if line[|line| - 1] == 0 {
        RunsFit(init);
      } else {
        var k := TrailingOnes(line);
        var p := line[..|line| - k];
        RunsFit(p);
        SumSnoc(Runs(p), k);
        assert p != [] ==> p[|p| - 1] == 0;
      }
    }
  }

  lemma {:induction false} SumOfPositives(xs: seq<int>)
    requires forall i :: 0 <= i < |xs| ==> xs[i] > 0
    ensures Sum(xs) >= |xs|
  {
    if xs != [] {
      SumOfPositives(xs[..|xs| - 1]);
    }
  }

  /**
    * A line's hint is [0] exactly when the line has no filled cell; otherwise
    * it lists positive run lengths that add up to the filled cells and, with
    * one gap between neighbouring runs, fit in the line.
    */
  lemma LineHintsProperties(line: seq<Bit>)
    ensures LineHints(line) == [0] <==> Count(line) == 0
    ensures Count(line) > 0 ==>
              && (forall i :: 0 <= i < |LineHints(line)| ==> LineHints(line)[i] > 0)
              && Sum(LineHints(line)) == Count(line)
              && Sum(LineHints(line)) + (|LineHints(line)| - 1) <= |line|
  {
    RunsSumIsCount(line);
    RunsFit(line);
    SumOfPositives(Runs(line));
  }

  /** A 0 splits a line: the runs of the whole are the runs of the left part, then those of the right. */
  lemma {:induction false} RunsSplitAtZero(a: seq<Bit>, b: seq<Bit>)
    ensures Runs(a + [0] + b) == Runs(a) + Runs(b)
    decreases |b|
  {
    var line := a + [0] + b;
    if b == [] {
      RunsAfterZero(a + [0], |a|);
      assert (a + [0])[..|a| + 1] == line;
      assert (a + [0])[..|a|] == a;
    } else if b[|b| - 1] == 0 {
      var b' := b[..|b| - 1];
      assert line[|line| - 1] == 0;
      assert line[..|line| - 1] == a + [0] + b';
      RunsSplitAtZero(a, b');
    } else {
      RunsSplitTrailing(a, b);
    }
  }

  /** The case of RunsSplitAtZero where the right part ends with a run of 1s. */
  lemma {:induction false} RunsSplitTrailing(a: seq<Bit>, b: seq<Bit>)
    requires b != [] && b[|b| - 1] == 1
    ensures Runs(a + [0] + b) == Runs(a) + Runs(b)
    decreases |b|, 0
  {
    var line := a + [0] + b;
    var k := TrailingOnes(b);
    var b' := b[..|b| - k];
    assert Runs(line) == Runs(a + [0] + b') + [k] by {
      assert forall i :: |line| - k <= i < |line| ==> line[i] == b[i - |a| - 1];
      assert k < |line| ==> line[|line| - 1 - k] == 0 by {
        if k < |b| {
          assert line[|line| - 1 - k] == b[|b| - 1 - k];
        }
      }
      TrailingOnesIs(line, k);
      assert line[..|line| - k] == a + [0] + b';
    }
    assert Runs(b) == Runs(b') + [k];
    RunsSplitAtZero(a, b');
  }

  /** A line of k > 0 ones is one run of length k. */
  lemma RunsOfOnes(k: nat)
    requires k > 0
    ensures Runs(seq(k, _ => 1)) == [k]
  {
    var line: seq<Bit> := seq(k, _ => 1);
    TrailingOnesIs(line, k);
    assert line[..0] == [];
  }

  /** A line of zeros has no run. */
  lemma {:induction false} RunsOfZeros(k: nat)
    ensures Runs(seq(k, _ => 0)) == []
  {
    if k > 0 {
      var line: seq<Bit> := seq(k, _ => 0);
      assert line[..k - 1] == seq(k - 1, _ => 0);
      RunsOfZeros(k - 1);
    }
  }

  /** Hints of five-cell lines: two runs of two, and one full run. */
  lemma HintsOfPairs()
    ensures LineHints([1, 1, 0, 1, 1]) == [2, 2]
    ensures LineHints([1, 1, 1, 1, 1]) == [5]
  {
    var two: seq<Bit> := [1, 1];
    RunsOfOnes(2);
    assert two == seq(2, _ => 1);
    RunsSplitAtZero(two, two);
    assert [1, 1, 0, 1, 1] == two + [0] + two;
  }

  /** Hints of a five-cell line of alternating cells. */
  lemma HintsOfAlternating()
    ensures LineHints([1, 0, 1, 0, 1]) == [1, 1, 1]
  {
    var one: seq<Bit> := [1];
    RunsOfOnes(1);
    assert one == seq(1, _ => 1);
    RunsSplitAtZero(one, one);
    var mid: seq<Bit> := one + [0] + one;
    assert mid == [1, 0, 1];
    RunsSplitAtZero(one, mid);
    assert [1, 0, 1, 0, 1] == one + [0] + mid;
  }

  /** Hint of an empty five-cell line. */
  lemma HintsOfBlank()
    ensures LineHints([0, 0, 0, 0, 0]) == [0]
  {
    RunsOfZeros(5);
    assert [0, 0, 0, 0, 0] == seq(5, _ => 0);
  }

  /**
    * Where a scan with the `startValue` sentinel stands after looking at the
    * first x cells: no open run (-1) and the hints so far are the runs of
    * those cells, or an open run since `start` after the runs before it.
    */
  predicate Scanning(line: seq<Bit>, x: int, start: int, hints: seq<int>) {
    && 0 <= x <= |line|
    && if start == -1 then
         hints == Runs(line[..x]) && (x > 0 ==> line[x - 1] == 0)
       else
         && 0 <= start < x
         && (forall i :: start <= i < x ==> line[i] == 1)
         && (start > 0 ==> line[start - 1] == 0)
         && hints == Runs(line[..start])
  }

  /** One step of the scan keeps it where Scanning says, after one more cell. */
  lemma ScanAdvance(line: seq<Bit>, x: nat, start: int, hints: seq<int>, start': int, hints': seq<int>)
    requires Scanning(line, x, start, hints) && x < |line|
    requires start' == (if start == -1 && line[x] == 1 then x else if start != -1 && line[x] == 0 then -1 else start)
    requires hints' == (if start != -1 && line[x] == 0 then hints + [x - start] else hints)
    ensures Scanning(line, x + 1, start', hints')
  {
    if line[x] == 0 {
      RunsAfterZero(line, x);
      if start != -1 {
        RunsCloseBlock(line, start, x);
      }
    }
  }

  /** The hints the scan has when the line is done: the open run is closed with `length - start`. */
  lemma ScanClose(line: seq<Bit>, start: int, hints: seq<int>)
    requires Scanning(line, |line|, start, hints)
    ensures (if start != -1 then hints + [|line| - start] else hints) == Runs(line)
  {
    assert line[..|line|] == line;
    if start != -1 {
      RunsCloseBlock(line, start, |line|);
    }
  }

  /**
    * The end of a scan: an open run is closed at the line's end (`length - start`),
    * and a line without runs gets the single hint 0.
    */
  method FinishScan(ghost line: seq<Bit>, length: nat, startValue: int, hints: seq<int>) returns (r: seq<int>)
    requires length == |line| && Scanning(line, length, startValue, hints)
    ensures r == LineHints(line)
  {
    ScanClose(line, startValue, hints);
    r := hints;
    if startValue != -1 {
      r := r + [length - startValue];
    }
    if |r| == 0 {
      r := r + [0];
    }
  }

  /** Row hints: every row scanned left to right (the first pass over `values`). */
  method RowHints(values: seq<seq<Bit>>, width: nat, height: nat) returns (rowHints: seq<seq<int>>)
    requires IsGrid(values, width, height)
    ensures |rowHints| == height
    ensures forall y :: 0 <= y < height ==> rowHints[y] == LineHints(values[y])
  {
    rowHints := [];
    for y := 0 to height
      invariant |rowHints| == y
      invariant forall i :: 0 <= i < y ==> rowHints[i] == LineHints(values[i])
    {
      var hints := ScanRow(values[y], width);
      rowHints := rowHints + [hints];
    }
  }

  /** The hint of one row (`values[y]`), scanning with the `startValue` sentinel: -1 while no run is open. */
  method ScanRow(row: seq<Bit>, width: nat) returns (hints: seq<int>)
    requires |row| == width
    ensures hints == LineHints(row)
  {
    var startValue := -1;
    hints := [];
    for x := 0 to width
      invariant Scanning(row, x, startValue, hints)
    {
      ghost var start0, hints0 := startValue, hints;
      if startValue == -1 && row[x] == 1 {
        startValue := x;
      } else if startValue != -1 && row[x] == 0 {
        hints := hints + [x - startValue];
        startValue := -1;
      }
      ScanAdvance(row, x, start0, hints0, startValue, hints);
    }
    hints := FinishScan(row, width, startValue, hints);
  }

  /** Column hints: every column scanned top to bottom, in a pass of its own. */
  method ColumnHints(values: seq<seq<Bit>>, width: nat, height: nat) returns (colHints: seq<seq<int>>)
    requires IsGrid(values, width, height)
    ensures |colHints| == width
    ensures forall x :: 0 <= x < width ==> colHints[x] == LineHints(Transpose(values, width, height)[x])
  {
    colHints := [];
    for x := 0 to width
      invariant |colHints| == x
      invariant forall i :: 0 <= i < x ==> colHints[i] == LineHints(Transpose(values, width, height)[i])
    {
      var hints := ScanColumn(values, width, height, x);
      colHints := colHints + [hints];
    }
  }

  /** The hint of column x, the same scan run down the column. */
  method ScanColumn(values: seq<seq<Bit>>, width: nat, height: nat, x: nat) returns (hints: seq<int>)
    requires IsGrid(values, width, height) && x < width
    ensures hints == LineHints(Transpose(values, width, height)[x])
  {
    ghost var line := Transpose(values, width, height)[x];
    assert |line| == height;
    var startValue := -1;
    hints := [];
    for y := 0 to height
      invariant Scanning(line, y, startValue, hints)
    {
      ghost var start0, hints0 := startValue, hints;
      if startValue == -1 && values[y][x] == 1 {
        startValue := y;
      } else if startValue != -1 && values[y][x] == 0 {
        hints := hints + [y - startValue];
        startValue := -1;
      }
      ScanAdvance(line, y, start0, hints0, startValue, hints);
    }
    hints := FinishScan(line, height, startValue, hints);
  }

  // ---------------------------------------------------------------------
  // The whole derivation
  // ---------------------------------------------------------------------

  /** The bitmap and the solution strings (the first pass over the pixels). */
  method BuildValues(p: Pixels) returns (values: seq<seq<Bit>>, solution: seq<string>)
    requires Decoded(p)
    ensures values == Bitmap(p)
    ensures |solution| == p.height
    ensures forall y :: 0 <= y < p.height ==> solution[y] == SolutionText(values[y])
  {
    solution, values := [], [];
    for y := 0 to p.height
      invariant |values| == y && |solution| == y
      invariant forall i :: 0 <= i < y ==> values[i] == Bitmap(p)[i]
      invariant forall i :: 0 <= i < y ==> |values[i]| > 0 && solution[i] == SolutionText(values[i])
    {
      var row: seq<Bit> := [];
      for x := 0 to p.width
        invariant |row| == x
        invariant forall j :: 0 <= j < x ==> row[j] == PixelValue(p, j, y)
      {
        var val := Get(p, x, y, 0) + Get(p, x, y, 1) + Get(p, x, y, 2);
        row := row + [if val == 0 then 0 else 1];
      }
      assert row == Bitmap(p)[y];
      values := values + [row];
      solution := solution + [SolutionText(row)];
    }
  }

  /** The game's reading of the solution strings, as a bitmap. */
  function DecodedGrid(solution: seq<string>): (grid: seq<seq<Bit>>)
    ensures |grid| == |solution|
  {
    seq(|solution|, y requires 0 <= y < |solution| => FilledBits(PuzzleObject.ParseRow(solution[y])))
  }

  /**
    * The consistency a puzzle file must have: its solution strings, decoded
    * as the game decodes them, form a grid whose rows have the row hints and
    * whose columns have the column hints.
    */
  predicate HintsMatchSolution(d: PuzzleData) {
    var grid := DecodedGrid(d.solution);
    && |d.hints| == 2
    && |d.hints[ROW]| == |grid|
    && (forall y :: 0 <= y < |grid| ==> d.hints[ROW][y] == LineHints(grid[y]))
    && IsGrid(grid, |d.hints[COL]|, |grid|)
    && (forall x :: 0 <= x < |d.hints[COL]| ==>
          d.hints[COL][x] == LineHints(Transpose(grid, |d.hints[COL]|, |grid|)[x]))
  }

  /** The game decodes the derived solution strings back into the image's bitmap. */
  lemma SolutionDecodesToBitmap(p: Pixels, solution: seq<string>)
    requires Decoded(p)
    requires |solution| == p.height
    requires forall y :: 0 <= y < p.height ==> solution[y] == SolutionText(Bitmap(p)[y])
    ensures DecodedGrid(solution) == Bitmap(p)
  {
    forall y | 0 <= y < p.height
      ensures DecodedGrid(solution)[y] == Bitmap(p)[y]
    {
      SolutionRoundTrip(Bitmap(p)[y]);
    }
  }

  /**
    * The file stores `size` as [width, height] while the game reads size[ROW]
    * as its number of rows; the game loads only 10x10 sizes, and there the
    * two readings agree with the solution's row count.
    */
  lemma DerivedSizeAxes(p: Pixels, d: PuzzleData)
    requires Decoded(p)
    requires d.size == [p.width, p.height] && |d.solution| == p.height
    ensures PuzzleObject.NewPuzzleConfig(d).Ok? <==> p.width == 10 && p.height == 10
    ensures PuzzleObject.NewPuzzleConfig(d).Ok? ==> d.size[ROW] == |d.solution| == d.size[COL]
    ensures d.size[ROW] == |d.solution| <==> p.width == p.height
  {
  }

  datatype CreatedPuzzle = CreatedPuzzle(outFile: string, data: PuzzleData)

  /**
    * The whole script for one source image: `finishedExists` says whether the
    * ".finished.png" sibling exists, `pixels` is what get-pixels delivered
    * (None for its error). The result is the file to write and its data, or
    * the reason nothing is written.
    */
  method CreatePuzzle(sourceImagePath: string, finishedExists: bool, pixels: Option<Pixels>)
    returns (r: Result<CreatedPuzzle, CreateError>)
    requires pixels.Some? ==> Decoded(pixels.value)
    ensures ParseFileName(sourceImagePath, finishedExists).Err? ==>
              r == Err(ParseFileName(sourceImagePath, finishedExists).error)
    ensures ParseFileName(sourceImagePath, finishedExists).Ok? && pixels.None? ==>
              r == Err(ImageNotFound(sourceImagePath))
    ensures r.Ok? <==> ParseFileName(sourceImagePath, finishedExists).Ok? && pixels.Some?
    ensures r.Ok? ==>
              var m := ParseFileName(sourceImagePath, finishedExists).value;
              var p := pixels.value;
              var d := r.value.data;
              && r.value.outFile == m.outFile
              && d.name == m.name && d.id == m.id && d.date == m.date
              && d.image == m.image && d.finishedImage == m.finishedImage
              && d.size == [p.width, p.height]
              && |d.solution| == p.height
              && (forall y :: 0 <= y < p.height ==> d.solution[y] == SolutionText(Bitmap(p)[y]))
              && |d.hints| == 2 && |d.hints[ROW]| == p.height && |d.hints[COL]| == p.width
              && (forall y :: 0 <= y < p.height ==> d.hints[ROW][y] == LineHints(Bitmap(p)[y]))
              && (forall x :: 0 <= x < p.width ==>
                    d.hints[COL][x] == LineHints(Transpose(Bitmap(p), p.width, p.height)[x]))
              && DecodedGrid(d.solution) == Bitmap(p)
              && HintsMatchSolution(d)
  {
    var meta := ParseFileName(sourceImagePath, finishedExists);
    if meta.Err? {
      return Err(meta.error);
    }
    if pixels.None? {
      return Err(ImageNotFound(sourceImagePath));
    }
    var p := pixels.value;
    var values, solution := BuildValues(p);
    var rowHints := RowHints(values, p.width, p.height);
    var colHints := ColumnHints(values, p.width, p.height);
    var m := meta.value;
    var data := PuzzleData(m.name, m.id, m.date, m.image, m.finishedImage,
                           [p.width, p.height], [rowHints, colHints], solution);
    SolutionDecodesToBitmap(p, solution);
    return Ok(CreatedPuzzle(m.outFile, data));
  }
}
