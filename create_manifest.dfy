/**
  * The manifest tool (scripts/create_manifest.js): from the listing of the
  * puzzle directory it keeps the puzzle files, reads each one and builds the
  * manifest that drives the puzzle select screen: an `index` of long names in
  * listing order and a `puzzles` map from long name to a summary record.
  *
  * Reading the directory and the files is a parameter: `files` is the
  * directory listing and `load` gives the parsed contents of a file.
  */
module CreateManifest {
  import opened Types
  import opened Strings

  const ManifestFilename: string := "all_puzzles.json"

  /** A listed file is read when it is a ".json" file other than the manifest itself. */
  predicate IsPuzzleFile(f: string) {
    EndsWith(f, ".json") && f != ManifestFilename
  }

  /** The listing filtered down to the puzzle files, in listing order. */
  function PuzzleFiles(files: seq<string>): (chosen: seq<string>)
    ensures |chosen| <= |files|
    ensures forall f :: f in chosen <==> f in files && IsPuzzleFile(f)
  {
    if files == [] then []
    else
      assert forall f :: f in files <==> f == files[0] || f in files[1..];
      (if IsPuzzleFile(files[0]) then [files[0]] else []) + PuzzleFiles(files[1..])
  }

  /** Filtering keeps order: the puzzle files of a concatenation are those of each part in turn. */
  lemma {:induction false} PuzzleFilesAppend(a: seq<string>, b: seq<string>)
    ensures PuzzleFiles(a + b) == PuzzleFiles(a) + PuzzleFiles(b)
  {
    if a == [] {
      assert a + b == b;
    } else {
      assert (a + b)[0] == a[0];
      assert (a + b)[1..] == a[1..] + b;
      PuzzleFilesAppend(a[1..], b);
    }
  }

  /** The key of a puzzle in the manifest: its id, '-', its name. */
  function LongName(p: PuzzleData): string {
    p.id + "-" + p.name
  }

  /** The manifest record of one puzzle file. */
  function EntryOf(file: string, p: PuzzleData): PuzzleEntry {
    PuzzleEntry(p.name, "../puzzles/" + file, p.id, p.date, p.finishedImage, p.size)
  }

  /**
    * The manifest after processing `files` (already filtered) in order: each
    * file appends its long name to the index and sets the map entry of that
    * long name to its record.
    */
  function ManifestOf(files: seq<string>, load: string -> PuzzleData): PuzzleManifest {
    if files == [] then PuzzleManifest([], map[])
    else
      var before := ManifestOf(files[..|files| - 1], load);
      var file := files[|files| - 1];
      var p := load(file);
      PuzzleManifest(before.index + [LongName(p)], before.puzzles[LongName(p) := EntryOf(file, p)])
  }

  /** The forEach over the puzzle files, appending to `index` and writing into `puzzleMap`. */
  method CreateManifest(files: seq<string>, load: string -> PuzzleData) returns (manifest: PuzzleManifest)
    ensures manifest == ManifestOf(PuzzleFiles(files), load)
  {
    var chosen := PuzzleFiles(files);
    var index: seq<string> := [];
    var puzzleMap: map<string, PuzzleEntry> := map[];
    for i := 0 to |chosen|
      invariant PuzzleManifest(index, puzzleMap) == ManifestOf(chosen[..i], load)
    {
      var file := chosen[i];
      var puzzle := load(file);
      var longName := puzzle.id + "-" + puzzle.name;
      index := index + [longName];
      puzzleMap := puzzleMap[longName := EntryOf(file, puzzle)];
      assert chosen[..i + 1][..i] == chosen[..i];
    }
    assert chosen[..|chosen|] == chosen;
    manifest := PuzzleManifest(index, puzzleMap);
  }

  /** The index holds exactly one long name per processed file, in order. */
  lemma {:induction false} ManifestIndex(files: seq<string>, load: string -> PuzzleData)
    ensures |ManifestOf(files, load).index| == |files|
    ensures forall i :: 0 <= i < |files| ==> ManifestOf(files, load).index[i] == LongName(load(files[i]))
  {
    if files != [] {
      ManifestIndex(files[..|files| - 1], load);
    }
  }

  /** The map's keys are exactly the long names in the index. */
  lemma {:induction false} ManifestKeys(files: seq<string>, load: string -> PuzzleData)
    ensures forall k :: k in ManifestOf(files, load).puzzles <==> k in ManifestOf(files, load).index
  {
    if files != [] {
      ManifestKeys(files[..|files| - 1], load);
    }
  }

  /** Every record sits under the long name of its own id and name. */
  lemma {:induction false} ManifestRecordsMatchKeys(files: seq<string>, load: string -> PuzzleData)
    ensures forall k :: k in ManifestOf(files, load).puzzles ==>
              ManifestOf(files, load).puzzles[k].id + "-" + ManifestOf(files, load).puzzles[k].name == k
  {
    if files != [] {
      ManifestRecordsMatchKeys(files[..|files| - 1], load);
    }
  }

  /**
    * Of the files that share a long name, the last one's record is the one
    * the map keeps.
    */
  lemma {:induction false} LastFileWins(files: seq<string>, load: string -> PuzzleData, i: nat)
    requires i < |files|
    requires forall j :: i < j < |files| ==> LongName(load(files[j])) != LongName(load(files[i]))
    ensures LongName(load(files[i])) in ManifestOf(files, load).puzzles
    ensures ManifestOf(files, load).puzzles[LongName(load(files[i]))] == EntryOf(files[i], load(files[i]))
  {
    if i < |files| - 1 {
      var init := files[..|files| - 1];
      assert init[i] == files[i];
      assert forall j :: i < j < |init| ==> init[j] == files[j];
      LastFileWins(init, load, i);
    }
  }

  /** With no '-' in the first id, the first '-' of a long name ends the id. */
  lemma LongNameSplits(p: PuzzleData)
    requires '-' !in p.id
    ensures IndexOfChar(LongName(p), '-') == |p.id|
  {
    var s := LongName(p);
    assert s[|p.id|] == '-';
    assert s[..|p.id|] == p.id;
  }

  /** Long names determine id and name, as long as ids contain no '-'. */
  lemma LongNameInjective(p: PuzzleData, q: PuzzleData)
    requires '-' !in p.id && '-' !in q.id
    requires LongName(p) == LongName(q)
    ensures p.id == q.id && p.name == q.name
  {
    var s := LongName(p);
    LongNameSplits(p);
    LongNameSplits(q);
    assert p.id == s[..|p.id|] && p.name == s[|p.id| + 1..];
    assert q.id == s[..|q.id|] && q.name == s[|q.id| + 1..];
  }

  /** Without that condition two different puzzles can share a long name. */
  lemma LongNameCollision()
    ensures var p := PuzzleData("c", "a-b", "", "", "", [], [], []);
            var q := PuzzleData("b-c", "a", "", "", "", [], [], []);
            p != q && LongName(p) == LongName(q)
  {
    var p := PuzzleData("c", "a-b", "", "", "", [], [], []);
    var q := PuzzleData("b-c", "a", "", "", "", [], [], []);
    assert p.id != q.id;
    assert LongName(p) == "a-b-c" == LongName(q);
  }

  /**
    * Files whose puzzles have distinct (id, name) pairs, and ids without '-'
    * (as every id the authoring tool writes), give an index without duplicates.
    */
  lemma DistinctPuzzlesDistinctIndex(files: seq<string>, load: string -> PuzzleData)
    requires forall i :: 0 <= i < |files| ==> '-' !in load(files[i]).id
    requires forall i, j :: 0 <= i < j < |files| ==>
               load(files[i]).id != load(files[j]).id || load(files[i]).name != load(files[j]).name
    ensures forall i, j :: 0 <= i < j < |ManifestOf(files, load).index| ==>
              ManifestOf(files, load).index[i] != ManifestOf(files, load).index[j]
  {
    ManifestIndex(files, load);
    forall i, j | 0 <= i < j < |files|
      ensures LongName(load(files[i])) != LongName(load(files[j]))
    {
      if LongName(load(files[i])) == LongName(load(files[j])) {
        LongNameInjective(load(files[i]), load(files[j]));
      }
    }
  }
}
