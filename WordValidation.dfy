// The board's word-validation pass: scan every row and every column for
// maximal runs of two or more tiles, look each run's word up, and report
// the cells whose every covering run spells an accepted word.

module WordValidation {
  import opened Tiles
  import opened Dictionary

  const Cols: nat := 42
  const Rows: nat := 24

  /** A row is scanned Across (left to right), a column Down (top to bottom). */
  datatype Dir = Across | Down

  /** A run as the scan collects it: its word and its cells in scan order. */
  datatype Run = Run(word: string, positions: seq<Coord>)

  /** Number of cells in one line of the given direction. */
  function LineLength(dir: Dir): nat { if dir == Across then Cols else Rows }

  /** Number of lines of the given direction. */
  function LineCount(dir: Dir): nat { if dir == Across then Rows else Cols }

  /** The k-th cell of line f (row f when Across, column f when Down). */
  function Cell(dir: Dir, f: int, k: int): Coord { if dir == Across then Coord(k, f) else Coord(f, k) }

  /** The position of c along a line of the given direction. */
  function Along(dir: Dir, c: Coord): int { if dir == Across then c.x else c.y }

  /** The line of the given direction that c lies on. */
  function LineOf(dir: Dir, c: Coord): int { if dir == Across then c.y else c.x }

  predicate InGrid(c: Coord) { 0 <= c.x < Cols && 0 <= c.y < Rows }

  predicate Occupied(board: Board, dir: Dir, f: int, k: int) { Cell(dir, f, k) in board }

  predicate AllOccupied(board: Board, dir: Dir, f: int, s: int, e: int)
  {
    forall k :: s <= k < e ==> Occupied(board, dir, f, k)
  }

  /**
   * The first position of the block of consecutive occupied cells that
   * reaches k from the left.
   */
  function Start(board: Board, dir: Dir, f: int, k: nat): (s: nat)
    ensures s <= k
    ensures AllOccupied(board, dir, f, s, k)
    ensures s == 0 || !Occupied(board, dir, f, s - 1)
    decreases k
  {
    if k > 0 && Occupied(board, dir, f, k - 1) then Start(board, dir, f, k - 1) else k
  }

  /**
   * One past the last position of the block of consecutive occupied cells
   * that reaches k from the right, stopping at the grid edge.
   */
  function End(board: Board, dir: Dir, f: int, k: nat): (e: nat)
    requires k < LineLength(dir)
    ensures k < e <= LineLength(dir)
    ensures AllOccupied(board, dir, f, k + 1, e)
    ensures e == LineLength(dir) || !Occupied(board, dir, f, e)
    decreases LineLength(dir) - k
  {
    if k + 1 < LineLength(dir) && Occupied(board, dir, f, k + 1) then End(board, dir, f, k + 1) else k + 1
  }

  /** The cells from position s up to (not including) e of line f. */
  function Cells(dir: Dir, f: int, s: int, e: int): (r: seq<Coord>)
    requires s <= e
    ensures |r| == e - s
    ensures forall i :: 0 <= i < e - s ==> r[i] == Cell(dir, f, s + i)
  {
    seq(e - s, i requires 0 <= i < e - s => Cell(dir, f, s + i))
  }

  /** The letters on the cells from s up to e of line f, in scan order. */
  function Letters(board: Board, dir: Dir, f: int, s: int, e: int): (r: string)
    requires s <= e && AllOccupied(board, dir, f, s, e)
    ensures |r| == e - s
    ensures forall i :: 0 <= i < e - s ==> Occupied(board, dir, f, s + i) && r[i] == board[Cell(dir, f, s + i)].letter
  {
    seq(e - s, i requires 0 <= i < e - s && Occupied(board, dir, f, s + i) => board[Cell(dir, f, s + i)].letter)
  }

  /** The run made of the cells from s up to e of line f. */
  function Segment(board: Board, dir: Dir, f: int, s: int, e: int): Run
    requires s <= e && AllOccupied(board, dir, f, s, e)
  {
    Run(Letters(board, dir, f, s, e), Cells(dir, f, s, e))
  }

  /**
   * The cells from s up to e of line f are all occupied and cannot be
   * extended: the cell before s and the cell at e are empty or off the grid.
   */
  predicate Maximal(board: Board, dir: Dir, f: int, s: int, e: int)
  {
    && 0 <= s < e <= LineLength(dir)
    && AllOccupied(board, dir, f, s, e)
    && (s == 0 || !Occupied(board, dir, f, s - 1))
    && (e == LineLength(dir) || !Occupied(board, dir, f, e))
  }

  /**
   * r is a run of the given direction: at least two cells, lying in one
   * line of the grid, consecutive, maximal, and its word is the letters of
   * its cells in scan order.
   */
  predicate IsRun(board: Board, dir: Dir, r: Run)
  {
    && |r.positions| >= 2
    && var f := LineOf(dir, r.positions[0]);
       var s := Along(dir, r.positions[0]);
       var e := s + |r.positions|;
       && 0 <= f < LineCount(dir)
       && Maximal(board, dir, f, s, e)
       && r == Segment(board, dir, f, s, e)
  }

  /** Position k of line f is occupied and its block has two or more cells. */
  predicate SpansAt(board: Board, dir: Dir, f: int, k: nat)
    requires k < LineLength(dir)
  {
    Occupied(board, dir, f, k) && End(board, dir, f, k) - Start(board, dir, f, k) >= 2
  }

  /** The maximal block through position k of line f, as a run. */
  function RunAt(board: Board, dir: Dir, f: int, k: nat): Run
    requires k < LineLength(dir) && Occupied(board, dir, f, k)
  {
    Segment(board, dir, f, Start(board, dir, f, k), End(board, dir, f, k))
  }

  /** The tile at c belongs to a run of the given direction. */
  predicate Spans(board: Board, dir: Dir, c: Coord)
  {
    InGrid(c) && c in board && SpansAt(board, dir, LineOf(dir, c), Along(dir, c))
  }

  /** The run of the given direction through the tile at c. */
  function RunThrough(board: Board, dir: Dir, c: Coord): Run
    requires InGrid(c) && c in board
  {
    RunAt(board, dir, LineOf(dir, c), Along(dir, c))
  }

  /**
   * The validity the engine reports for a cell: it holds a tile, at least
   * one run covers it, and the word of every run covering it is accepted.
   */
  predicate CellValid(board: Board, wordSet: Option<set<string>>, c: Coord)
  {
    && InGrid(c) && c in board
    && (Spans(board, Across, c) || Spans(board, Down, c))
    && (Spans(board, Across, c) ==> IsValidWord(wordSet, Lower(RunThrough(board, Across, c).word)))
    && (Spans(board, Down, c) ==> IsValidWord(wordSet, Lower(RunThrough(board, Down, c).word)))
  }

  /** The lower-cased words of the runs that cover c (what the engine files under c). */
  function WordsAt(runs: seq<Run>, c: Coord): set<string>
  {
    if runs == [] then {}
    else
      var last := runs[|runs| - 1];
      WordsAt(runs[..|runs| - 1], c) + (if c in last.positions then {Lower(last.word)} else {})
  }

  /** The lower-cased words of the runs that the dictionary accepts. */
  function AcceptedWords(runs: seq<Run>, wordSet: Option<set<string>>): set<string>
  {
    if runs == [] then {}
    else
      var last := runs[|runs| - 1];
      var lower := Lower(last.word);
      AcceptedWords(runs[..|runs| - 1], wordSet) + (if IsValidWord(wordSet, lower) then {lower} else {})
  }

  // ---------------------------------------------------------------------------
  // The scan

  /**
   * Scans line f in direction dir, collecting every maximal run of two or
   * more occupied cells: each run found is a maximal run of the line, and
   * every cell of the line that lies in a block of two or more tiles has
   * its block among the runs.
   */
  method ScanLine(board: Board, dir: Dir, f: int) returns (runs: seq<Run>)
    requires 0 <= f < LineCount(dir)
    ensures forall r :: r in runs ==> IsRun(board, dir, r) && LineOf(dir, r.positions[0]) == f
    ensures forall k :: 0 <= k < LineLength(dir) && SpansAt(board, dir, f, k) ==> RunAt(board, dir, f, k) in runs
  {
    var n := LineLength(dir);
    runs := [];
    var word: string := "";
    var positions: seq<Coord> := [];
    var k := 0;
    while k < n
      invariant 0 <= k <= n
      invariant |word| == |positions| <= k
      invariant AllOccupied(board, dir, f, k - |word|, k)
      invariant positions == Cells(dir, f, k - |word|, k)
      invariant word == Letters(board, dir, f, k - |word|, k)
      invariant k - |word| == 0 || !Occupied(board, dir, f, k - |word| - 1)
      invariant forall r :: r in runs ==> IsRun(board, dir, r) && LineOf(dir, r.positions[0]) == f
      invariant forall j :: 0 <= j < k - |word| && SpansAt(board, dir, f, j) ==> RunAt(board, dir, f, j) in runs
    {
      var key := Cell(dir, f, k);
      if key in board {
        var isAdjacent := |positions| == 0 || Along(dir, positions[|positions| - 1]) == k - 1;
        if isAdjacent {
          word := word + [board[key].letter];
          positions := positions + [key];
        } else {
          // The source restarts the run here; an empty cell always resets
          // the run first, so a tile never follows a non-adjacent one.
          assert false;
        }
      } else {
        runs := CloseRun(board, dir, f, runs, word, positions, k);
        word := "";
        positions := [];
      }
      k := k + 1;
    }
    runs := CloseRun(board, dir, f, runs, word, positions, k);
  }

  /**
   * The end of a block at position e (an empty cell or the grid edge): the
   * block is kept as a run when it has two or more tiles.
   */
  method CloseRun(board: Board, dir: Dir, f: int, runs: seq<Run>, word: string, positions: seq<Coord>, e: nat)
    returns (runs': seq<Run>)
    requires 0 <= f < LineCount(dir) && |word| <= e <= LineLength(dir)
    requires AllOccupied(board, dir, f, e - |word|, e)
    requires positions == Cells(dir, f, e - |word|, e)
    requires word == Letters(board, dir, f, e - |word|, e)
    requires e - |word| == 0 || !Occupied(board, dir, f, e - |word| - 1)
    requires e == LineLength(dir) || !Occupied(board, dir, f, e)
    requires forall r :: r in runs ==> IsRun(board, dir, r) && LineOf(dir, r.positions[0]) == f
    requires forall j :: 0 <= j < e - |word| && SpansAt(board, dir, f, j) ==> RunAt(board, dir, f, j) in runs
    ensures forall r :: r in runs' ==> IsRun(board, dir, r) && LineOf(dir, r.positions[0]) == f
    ensures forall j :: 0 <= j < e && SpansAt(board, dir, f, j) ==> RunAt(board, dir, f, j) in runs'
  {
    var s := e - |word|;
    runs' := runs;
    if |word| > 1 {
      runs' := runs + [Run(word, positions)];
      assert IsRun(board, dir, Run(word, positions)) by {
        assert positions[0] == Cell(dir, f, s);
      }
    }
    forall j | s <= j < e
      ensures Start(board, dir, f, j) == s && End(board, dir, f, j) == e
    {
      StartInBlock(board, dir, f, s, e, j);
      EndInBlock(board, dir, f, s, e, j);
    }
  }

  // ---------------------------------------------------------------------------
  // Indexing the runs by cell

  /**
   * Files every run's lower-cased word under each of its cells, and
   * collects the lower-cased words the dictionary accepts.
   */
  method IndexRuns(words: seq<Run>, wordSet: Option<set<string>>)
    returns (tileToWords: map<Coord, set<string>>, validWordSet: set<string>)
    ensures forall c :: c in tileToWords <==> WordsAt(words, c) != {}
    ensures forall c :: c in tileToWords ==> tileToWords[c] == WordsAt(words, c)
    ensures validWordSet == AcceptedWords(words, wordSet)
  {
    tileToWords := map[];
    validWordSet := {};
    var j := 0;
    while j < |words|
      invariant 0 <= j <= |words|
      invariant forall c :: c in tileToWords <==> WordsAt(words[..j], c) != {}
      invariant forall c :: c in tileToWords ==> tileToWords[c] == WordsAt(words[..j], c)
      invariant validWordSet == AcceptedWords(words[..j], wordSet)
    {
      var run := words[j];
      var lower := Lower(run.word);
      var isValid := IsValidWord(wordSet, lower);
      if isValid {
        validWordSet := validWordSet + {lower};
      }
      tileToWords := FileWord(tileToWords, run.positions, lower);
      assert words[..j + 1][..j] == words[..j];
      j := j + 1;
    }
    assert words[..j] == words;
  }

  /** Files one run's lower-cased word under each of the run's cells. */
  method FileWord(tileToWords: map<Coord, set<string>>, positions: seq<Coord>, lower: string)
    returns (filed: map<Coord, set<string>>)
    ensures forall c :: c in filed <==> c in tileToWords || c in positions
    ensures forall c :: c in filed ==>
      filed[c] == (if c in tileToWords then tileToWords[c] else {}) + (if c in positions then {lower} else {})
  {
    filed := tileToWords;
    var i := 0;
    while i < |positions|
      invariant 0 <= i <= |positions|
      invariant forall c :: c in filed <==> c in tileToWords || c in positions[..i]
      invariant forall c :: c in filed ==>
        filed[c] == (if c in tileToWords then tileToWords[c] else {}) + (if c in positions[..i] then {lower} else {})
    {
      var pos := positions[i];
      if pos !in filed {
        filed := filed[pos := {}];
      }
      filed := filed[pos := filed[pos] + {lower}];
      assert positions[..i + 1] == positions[..i] + [pos];
      i := i + 1;
    }
    assert positions[..i] == positions;
  }

  /** The cells all of whose filed words are among the accepted words. */
  method TrulyValidPositions(tileToWords: map<Coord, set<string>>, validWordSet: set<string>)
    returns (valid: set<Coord>)
    ensures forall c :: c in valid <==> c in tileToWords && tileToWords[c] <= validWordSet
  {
    valid := {};
    var pending := tileToWords.Keys;
    while pending != {}
      invariant pending <= tileToWords.Keys
      invariant forall c :: c in valid <==> c in tileToWords && c !in pending && tileToWords[c] <= validWordSet
      decreases |pending|
    {
      var pos :| pos in pending;
      var allValid := forall w | w in tileToWords[pos] :: w in validWordSet;
      if allValid {
        valid := valid + {pos};
      }
      pending := pending - {pos};
    }
  }

  /**
   * The validation pass: scans every row, then every column, indexes the
   * runs and keeps the cells whose covering words are all accepted. The
   * result is exactly the set of cells CellValid describes.
   */
  method ValidateWords(board: Board, wordSet: Option<set<string>>) returns (valid: set<Coord>)
    ensures forall c :: c in valid <==> CellValid(board, wordSet, c)
    ensures valid <= board.Keys
  {
    var words: seq<Run> := [];
    var y := 0;
    while y < Rows
      invariant 0 <= y <= Rows
      invariant forall r :: r in words ==> IsRun(board, Across, r)
      invariant forall c :: InGrid(c) && c.y < y && Spans(board, Across, c) ==> RunThrough(board, Across, c) in words
    {
      var rowRuns := ScanLine(board, Across, y);
      forall c | InGrid(c) && c.y == y && Spans(board, Across, c)
        ensures RunThrough(board, Across, c) in rowRuns
      {
        assert Cell(Across, y, c.x) == c;
      }
      words := words + rowRuns;
      y := y + 1;
    }
    var x := 0;
    while x < Cols
      invariant 0 <= x <= Cols
      invariant forall r :: r in words ==> IsRun(board, Across, r) || IsRun(board, Down, r)
      invariant forall c :: InGrid(c) && Spans(board, Across, c) ==> RunThrough(board, Across, c) in words
      invariant forall c :: InGrid(c) && c.x < x && Spans(board, Down, c) ==> RunThrough(board, Down, c) in words
    {
      var columnRuns := ScanLine(board, Down, x);
      forall c | InGrid(c) && c.x == x && Spans(board, Down, c)
        ensures RunThrough(board, Down, c) in columnRuns
      {
        assert Cell(Down, x, c.y) == c;
      }
      words := words + columnRuns;
      x := x + 1;
    }
    var tileToWords, validWordSet := IndexRuns(words, wordSet);
    valid := TrulyValidPositions(tileToWords, validWordSet);
    forall c
      ensures c in valid <==> CellValid(board, wordSet, c)
    {
      CoveringWords(board, words, c);
      AcceptedCovering(words, wordSet, c);
    }
  }

  // ---------------------------------------------------------------------------
  // Lemmas behind the scan

  /** Inside a maximal block [s, e), every position's block starts at s. */
  lemma {:induction false} StartInBlock(board: Board, dir: Dir, f: int, s: nat, e: nat, k: nat)
    requires AllOccupied(board, dir, f, s, e) && (s == 0 || !Occupied(board, dir, f, s - 1))
    requires s <= k < e
    ensures Start(board, dir, f, k) == s
    decreases k
  {
    if k > s {
      StartInBlock(board, dir, f, s, e, k - 1);
    }
  }

  /** Inside a maximal block [s, e), every position's block ends at e. */
  lemma {:induction false} EndInBlock(board: Board, dir: Dir, f: int, s: nat, e: nat, k: nat)
    requires e <= LineLength(dir) && AllOccupied(board, dir, f, s, e)
    requires e == LineLength(dir) || !Occupied(board, dir, f, e)
    requires s <= k < e
    ensures End(board, dir, f, k) == e
    decreases e - k
  {
    if k + 1 < e {
      EndInBlock(board, dir, f, s, e, k + 1);
    }
  }

  /**
   * A run covering c is the run through c in its direction, so a cell lies
   * in at most one run per direction and that run's word is fixed by the board.
   */
  lemma {:induction false} RunCoveringIsRunThrough(board: Board, dir: Dir, r: Run, c: Coord)
    requires IsRun(board, dir, r) && c in r.positions
    ensures InGrid(c) && c in board && Spans(board, dir, c)
    ensures r == RunThrough(board, dir, c)
  {
    var f := LineOf(dir, r.positions[0]);
    var s := Along(dir, r.positions[0]);
    var e := s + |r.positions|;
    var i :| 0 <= i < |r.positions| && r.positions[i] == c;
    assert c == Cell(dir, f, s + i);
    assert LineOf(dir, c) == f && Along(dir, c) == s + i;
    assert Occupied(board, dir, f, s + i);
    StartInBlock(board, dir, f, s, e, s + i);
    EndInBlock(board, dir, f, s, e, s + i);
  }

  /** The run through a spanning cell covers that cell. */
  lemma RunThroughCovers(board: Board, dir: Dir, c: Coord)
    requires Spans(board, dir, c)
    ensures c in RunThrough(board, dir, c).positions
  {
    var f, k := LineOf(dir, c), Along(dir, c);
    var s := Start(board, dir, f, k);
    assert RunThrough(board, dir, c).positions[k - s] == c;
  }

  /** A word is filed under c exactly when some run covering c has it. */
  lemma {:induction false} WordsAtMember(runs: seq<Run>, c: Coord, w: string)
    ensures w in WordsAt(runs, c) <==> exists t :: 0 <= t < |runs| && c in runs[t].positions && w == Lower(runs[t].word)
  {
    if runs != [] {
      var init := runs[..|runs| - 1];
      WordsAtMember(init, c, w);
      if w in WordsAt(init, c) {
        var t :| 0 <= t < |init| && c in init[t].positions && w == Lower(init[t].word);
        assert runs[t] == init[t];
      }
      forall t | 0 <= t < |init| ensures runs[t] == init[t] { }
    }
  }

  /** A word is accepted by the pass exactly when some run has it and the dictionary accepts it. */
  lemma {:induction false} AcceptedWordsMember(runs: seq<Run>, wordSet: Option<set<string>>, w: string)
    ensures w in AcceptedWords(runs, wordSet)
        <==> exists t :: 0 <= t < |runs| && w == Lower(runs[t].word) && IsValidWord(wordSet, w)
  {
    if runs != [] {
      var init := runs[..|runs| - 1];
      AcceptedWordsMember(init, wordSet, w);
      if w in AcceptedWords(init, wordSet) {
        var t :| 0 <= t < |init| && w == Lower(init[t].word) && IsValidWord(wordSet, w);
        assert runs[t] == init[t];
      }
      forall t | 0 <= t < |init| ensures runs[t] == init[t] { }
    }
  }

  /**
   * With sound and complete runs, the words filed under c are exactly the
   * words of the row run and the column run through c, where they exist.
   */
  lemma {:induction false} CoveringWords(board: Board, runs: seq<Run>, c: Coord)
    requires forall r :: r in runs ==> IsRun(board, Across, r) || IsRun(board, Down, r)
    requires forall c :: InGrid(c) && Spans(board, Across, c) ==> RunThrough(board, Across, c) in runs
    requires forall c :: InGrid(c) && Spans(board, Down, c) ==> RunThrough(board, Down, c) in runs
    ensures WordsAt(runs, c) == CellWords(board, c)
  {
    forall w | w in WordsAt(runs, c) ensures w in CellWords(board, c) {
      WordsAtMember(runs, c, w);
      var t :| 0 <= t < |runs| && c in runs[t].positions && w == Lower(runs[t].word);
      assert runs[t] in runs;
      if IsRun(board, Across, runs[t]) {
        RunCoveringIsRunThrough(board, Across, runs[t], c);
      } else {
        RunCoveringIsRunThrough(board, Down, runs[t], c);
      }
    }
    forall w | w in CellWords(board, c) ensures w in WordsAt(runs, c) {
      var dir := if Spans(board, Across, c) && w == Lower(RunThrough(board, Across, c).word) then Across else Down;
      var r := RunThrough(board, dir, c);
      RunThroughCovers(board, dir, c);
      var t :| 0 <= t < |runs| && runs[t] == r;
      WordsAtMember(runs, c, w);
    }
  }

  /** The words of the runs through c, lower-cased. */
  function CellWords(board: Board, c: Coord): set<string>
  {
    (if Spans(board, Across, c) then {Lower(RunThrough(board, Across, c).word)} else {})
    + (if Spans(board, Down, c) then {Lower(RunThrough(board, Down, c).word)} else {})
  }

  /** A word filed under c is among the accepted words exactly when the dictionary accepts it. */
  lemma {:induction false} AcceptedCovering(runs: seq<Run>, wordSet: Option<set<string>>, c: Coord)
    ensures forall w :: w in WordsAt(runs, c) ==> (w in AcceptedWords(runs, wordSet) <==> IsValidWord(wordSet, w))
  {
    forall w | w in WordsAt(runs, c)
      ensures w in AcceptedWords(runs, wordSet) <==> IsValidWord(wordSet, w)
    {
      WordsAtMember(runs, c, w);
      AcceptedWordsMember(runs, wordSet, w);
    }
  }

  // ---------------------------------------------------------------------------
  // What the pass promises

  /** Inside a maximal block, the run through any of its cells is the whole block. */
  lemma {:induction false} BlockIsRun(board: Board, dir: Dir, f: int, s: nat, e: nat, k: nat)
    requires Maximal(board, dir, f, s, e) && s <= k < e
    ensures Occupied(board, dir, f, k)
    ensures RunAt(board, dir, f, k) == Segment(board, dir, f, s, e)
    ensures SpansAt(board, dir, f, k) <==> e - s >= 2
  {
    StartInBlock(board, dir, f, s, e, k);
    EndInBlock(board, dir, f, s, e, k);
  }

  /**
   * A tile with no occupied neighbour in its row or column is never
   * reported valid: a single tile is not a word.
   */
  lemma {:induction false} IsolatedTileNeverValid(board: Board, wordSet: Option<set<string>>, c: Coord)
    requires Coord(c.x - 1, c.y) !in board && Coord(c.x + 1, c.y) !in board
    requires Coord(c.x, c.y - 1) !in board && Coord(c.x, c.y + 1) !in board
    ensures !CellValid(board, wordSet, c)
  {
    if InGrid(c) && c in board {
      BlockIsRun(board, Across, c.y, c.x, c.x + 1, c.x);
      BlockIsRun(board, Down, c.x, c.y, c.y + 1, c.y);
    }
  }

  /** Two horizontally adjacent tiles both lie in a row run. */
  lemma {:induction false} NeighboursFormRun(board: Board, c: Coord)
    requires InGrid(c) && InGrid(Coord(c.x + 1, c.y))
    requires c in board && Coord(c.x + 1, c.y) in board
    ensures Spans(board, Across, c) && Spans(board, Across, Coord(c.x + 1, c.y))
    ensures RunThrough(board, Across, c) == RunThrough(board, Across, Coord(c.x + 1, c.y))
  {
    var s := Start(board, Across, c.y, c.x);
    var e := End(board, Across, c.y, c.x);
    assert Occupied(board, Across, c.y, c.x) && Occupied(board, Across, c.y, c.x + 1);
    BlockIsRun(board, Across, c.y, s, e, c.x);
    BlockIsRun(board, Across, c.y, s, e, c.x + 1);
  }

  /**
   * A cell shared by a row run and a column run is valid only when both
   * words are accepted: one rejected word makes it invalid even if the
   * other is accepted.
   */
  lemma {:induction false} SharedCellNeedsBothWords(board: Board, wordSet: Option<set<string>>, c: Coord)
    requires Spans(board, Across, c) && Spans(board, Down, c)
    ensures CellValid(board, wordSet, c)
        <==> (&& IsValidWord(wordSet, Lower(RunThrough(board, Across, c).word))
              && IsValidWord(wordSet, Lower(RunThrough(board, Down, c).word)))
  {
  }
}
