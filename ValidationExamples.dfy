// Worked boards for the validation pass: a lone word, a word crossing a
// rejected word, and a lookup before the word list has loaded.

module ValidationExamples {
  import opened Tiles
  import opened Dictionary
  import opened WordValidation

  function T(letter: char): Tile { Tile(None, letter, false) }

  /** "CAT" across the top-left corner. */
  function CatBoard(): Board
  {
    map[Coord(0, 0) := T('C'), Coord(1, 0) := T('A'), Coord(2, 0) := T('T')]
  }

  /** "CAT" across and "CZT" down, sharing the C in the corner. */
  function CrossBoard(): Board
  {
    CatBoard()[Coord(0, 1) := T('Z')][Coord(0, 2) := T('T')]
  }

  /** The row run through each tile of "CAT" reads "CAT". */
  lemma {:induction false} CatRun(board: Board, k: nat)
    requires board == CatBoard() || board == CrossBoard()
    requires k < 3
    ensures Spans(board, Across, Coord(k, 0))
    ensures RunThrough(board, Across, Coord(k, 0)).word == "CAT"
  {
    assert Cell(Across, 0, 3) == Coord(3, 0);
    forall j | 0 <= j < 3 ensures Occupied(board, Across, 0, j) {
      assert Cell(Across, 0, j) == Coord(j, 0);
    }
    BlockIsRun(board, Across, 0, 0, 3, k);
    assert Cell(Across, 0, k) == Coord(k, 0);
    var w := Letters(board, Across, 0, 0, 3);
    assert w[0] == 'C' && w[1] == 'A' && w[2] == 'T';
  }

  /** With "cat" in the word set, every tile of a lone "CAT" is valid. */
  lemma {:induction false} LoneWordValid(k: nat)
    requires k < 3
    ensures CellValid(CatBoard(), Some({"cat"}), Coord(k, 0))
  {
    var board := CatBoard();
    CatRun(board, k);
    assert Lower("CAT") == "cat" && Lower("cat") == "cat";
    assert !Spans(board, Down, Coord(k, 0)) by {
      assert Cell(Down, k, 0) == Coord(k, 0);
      BlockIsRun(board, Down, k, 0, 1, 0);
    }
  }

  /** Before the word list loads, no tile of "CAT" is valid. */
  lemma {:induction false} UnloadedWordListRejects(k: nat)
    requires k < 3
    ensures !CellValid(CatBoard(), None, Coord(k, 0))
  {
    CatRun(CatBoard(), k);
  }

  /** The column run through each tile of the down word of CrossBoard reads "CZT". */
  lemma {:induction false} CztRun(k: nat)
    requires k < 3
    ensures Spans(CrossBoard(), Down, Coord(0, k))
    ensures Lower(RunThrough(CrossBoard(), Down, Coord(0, k)).word) == "czt"
  {
    var board := CrossBoard();
    forall j | 0 <= j < 3 ensures Occupied(board, Down, 0, j) {
      assert Cell(Down, 0, j) == Coord(0, j);
    }
    assert Cell(Down, 0, 3) == Coord(0, 3);
    BlockIsRun(board, Down, 0, 0, 3, k);
    var w := Letters(board, Down, 0, 0, 3);
    assert w[0] == 'C' && w[1] == 'Z' && w[2] == 'T';
    assert Lower(w) == "czt";
    assert Cell(Down, 0, k) == Coord(0, k);
  }

  /** Every tile of the rejected down word "CZT" is invalid, the shared C included. */
  lemma {:induction false} CztTileRejected(k: nat)
    requires k < 3
    ensures !CellValid(CrossBoard(), Some({"cat"}), Coord(0, k))
  {
    CztRun(k);
    assert Lower("czt") == "czt" && "czt" != "cat";
  }

  /** The A of "CAT" lies in no down word, so the accepted "CAT" keeps it valid. */
  lemma {:induction false} CatMiddleAccepted()
    ensures CellValid(CrossBoard(), Some({"cat"}), Coord(1, 0))
  {
    var board := CrossBoard();
    CatRun(board, 1);
    assert Lower("CAT") == "cat" && Lower("cat") == "cat";
    assert !Spans(board, Down, Coord(1, 0)) by {
      assert Cell(Down, 1, 0) == Coord(1, 0);
      BlockIsRun(board, Down, 1, 0, 1, 0);
    }
  }

  /**
   * "CAT" crossing the rejected "CZT": the shared C is invalid, the A of
   * "CAT" stays valid and the Z of "CZT" is invalid.
   */
  lemma {:induction false} CrossingRejectedWord()
    ensures !CellValid(CrossBoard(), Some({"cat"}), Coord(0, 0))
    ensures CellValid(CrossBoard(), Some({"cat"}), Coord(1, 0))
    ensures !CellValid(CrossBoard(), Some({"cat"}), Coord(0, 1))
  {
    CztTileRejected(0);
    CatMiddleAccepted();
    CztTileRejected(1);
  }
}
