// Shared vocabulary of the game: coordinates, tiles, the board and the
// items that drag-and-drop hands to the board.

module Tiles {

  datatype Option<+T> = None | Some(value: T)

  /** A board coordinate; the source keys its board object by the string "x,y". */
  datatype Coord = Coord(x: int, y: int)

  /** A tile id; the source writes the n-th minted id as the string "tile-n". */
  type TileId = nat

  /**
   * A letter tile. A tile that reaches the board through a board-to-board
   * drag carries no id (the board cell renders its tile without one), hence
   * the Option. isNew is the highlight flag of freshly drawn tiles.
   */
  datatype Tile = Tile(id: Option<TileId>, letter: char, isNew: bool)

  /** The board: a tile for each occupied coordinate, nothing elsewhere. */
  type Board = map<Coord, Tile>

  datatype Origin = FromRack | FromBoard

  /**
   * What a drag (or a spin request) carries: the tile's id and letter, the
   * cell it came from (None for a rack tile, whose x and y are null) and
   * its origin.
   */
  datatype DragItem = DragItem(id: Option<TileId>, letter: char, pos: Option<Coord>, origin: Origin)

  /** The letters of a sequence of tiles, in order. */
  function LettersOf(ts: seq<Tile>): (r: seq<char>)
    ensures |r| == |ts|
    ensures forall k :: 0 <= k < |ts| ==> r[k] == ts[k].letter
  {
    seq(|ts|, k requires 0 <= k < |ts| => ts[k].letter)
  }

  /** True when some tile of ts carries the id. */
  predicate HasId(ts: seq<Tile>, id: TileId)
  {
    exists k :: 0 <= k < |ts| && ts[k].id == Some(id)
  }
}
