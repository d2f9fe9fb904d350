// The game page's mutable state and its handlers. Each handler updates
// the fields in place and is proved to leave the state that the matching
// transition of Progression computes from the old state.

module Game {
  import opened Tiles
  import opened TilePool
  import opened Progression

  class Game {
    /** The tiles on the board, by cell. */
    var board: Board
    /** The player's rack, in display order. */
    var rack: seq<Tile>
    /** The tiles not yet drawn, front first. */
    var reserve: seq<Tile>
    /** The id counter: the last id minted. */
    var tileCounter: TileId
    /** Ids being returned to the rack right now; empty between handlers. */
    var processedTileIds: set<TileId>
    /** The pool generated when the game starts. */
    const fullPool: seq<Tile>

    /** The game state as a value. */
    function State(): Piles
      reads this
    {
      Piles(board, rack, reserve, tileCounter)
    }

    /** Between handlers no id is in the middle of a return to the rack. */
    ghost predicate Valid()
      reads this
    {
      processedTileIds == {}
    }

    /**
     * Starts a game: a shuffled pool of TotalTiles tiles with ids 1, 2, ...,
     * its first RackSize tiles on the rack, the rest in the reserve, an
     * empty board.
     */
    constructor (swaps: seq<nat>)
      requires ValidSwaps(swaps, Total(Distribution))
      ensures Valid() && Inv(State())
      ensures |fullPool| == Min(TotalTiles, Total(Distribution))
      ensures |fullPool| == TotalTiles && |rack| == RackSize && |reserve| == TotalTiles - RackSize
      ensures LettersOf(fullPool) == Shuffled(Expansion(Distribution), swaps)[..|fullPool|]
      ensures rack == InitialRack(fullPool) && reserve == InitialReserve(fullPool)
      ensures rack + reserve == fullPool
      ensures board == map[] && tileCounter == |fullPool|
    {
      DistributionTotal();
      var pool, last := GenerateScaledTilePool(Distribution, TotalTiles, swaps, 0);
      fullPool := pool;
      rack := InitialRack(pool);
      reserve := InitialReserve(pool);
      board := map[];
      tileCounter := last;
      processedTileIds := {};
      new;
      assert rack + reserve == pool;
      forall k | 0 <= k < |rack| ensures rack[k] == pool[k] { }
    }

    /** Removes the placed tile from the rack by id. */
    method OnTilePlacedFromRack(id: Option<TileId>)
      modifies this
      ensures rack == RemoveId(old(rack), id)
      ensures board == old(board) && reserve == old(reserve) && tileCounter == old(tileCounter)
      ensures processedTileIds == old(processedTileIds)
    {
      rack := RemoveId(rack, id);
    }

    /**
     * Returns a tile to the rack unless it has no id or its id is already
     * being returned; an id the rack already holds is not added again.
     */
    method OnTileReturnToRack(tile: Option<Tile>)
      requires Valid()
      modifies this
      ensures Valid()
      ensures rack == ReturnToRack(old(rack), tile)
      ensures board == old(board) && reserve == old(reserve) && tileCounter == old(tileCounter)
    {
      if tile.None? || tile.value.id.None? || tile.value.id.value in processedTileIds {
        return;
      }
      var id := tile.value.id.value;
      processedTileIds := processedTileIds + {id};
      var safeTile := tile.value;
      if !HasId(rack, id) {
        rack := rack + [safeTile];
      }
      processedTileIds := processedTileIds - {id};
    }

    /** Drops a dragged tile on cell (x, y). */
    method HandleDrop(item: DragItem, x: int, y: int)
      modifies this
      ensures State() == Drop(old(State()), item, Coord(x, y))
      ensures processedTileIds == old(processedTileIds)
    {
      var key := Coord(x, y);
      if key in board {
        return;
      }
      var movedTile := Tile(item.id, item.letter, false);
      var updated := board;
      if item.pos.Some? {
        updated := updated - {item.pos.value};
      }
      updated := updated[key := movedTile];
      if item.origin == FromRack {
        OnTilePlacedFromRack(item.id);
      }
      board := updated;
    }

    /** Clicking cell (x, y): its tile goes back to the rack and the cell is cleared. */
    method HandleClickEvent(x: int, y: int)
      requires Valid()
      modifies this
      ensures Valid()
      ensures State() == Click(old(State()), Coord(x, y))
    {
      var key := Coord(x, y);
      OnTileReturnToRack(if key in board then Some(board[key]) else None);
      board := board - {key};
    }

    /** Boogie: the front reserve tile joins the rack with a new id. */
    method HandleBoogie()
      modifies this
      ensures State() == Boogie(old(State()))
      ensures processedTileIds == old(processedTileIds)
    {
      if |reserve| == 0 {
        return;
      }
      var nextTile := reserve[0];
      tileCounter := tileCounter + 1;
      var boogieTile := Tile(Some(tileCounter), nextTile.letter, true);
      rack := rack + [boogieTile];
      reserve := reserve[1..];
    }

    /** Clears the cell a spun board tile came from. */
    method OnBoardTileSpun(item: DragItem)
      modifies this
      ensures board == if item.pos.Some? then old(board) - {item.pos.value} else old(board)
      ensures rack == old(rack) && reserve == old(reserve) && tileCounter == old(tileCounter)
      ensures processedTileIds == old(processedTileIds)
    {
      if item.pos.Some? {
        board := board - {item.pos.value};
      }
    }

    /**
     * Spins a tile: refused (ok false, the alert) with fewer than three
     * reserve tiles; otherwise three tiles are drawn with new ids and the
     * spun tile leaves play.
     */
    method HandleSpin(item: DragItem) returns (ok: bool)
      modifies this
      ensures ok <==> |old(reserve)| >= SpinDraw
      ensures State() == Spin(old(State()), item)
      ensures processedTileIds == old(processedTileIds)
    {
      if |reserve| < SpinDraw {
        return false;
      }
      var drawn: seq<Tile> := [];
      var k := 0;
      while k < SpinDraw
        invariant 0 <= k <= SpinDraw <= |reserve|
        invariant tileCounter == old(tileCounter) + k
        invariant drawn == Redrawn(reserve[..k], old(tileCounter))
        invariant board == old(board) && rack == old(rack) && reserve == old(reserve)
        invariant processedTileIds == old(processedTileIds)
      {
        tileCounter := tileCounter + 1;
        drawn := drawn + [Tile(Some(tileCounter), reserve[k].letter, true)];
        k := k + 1;
      }
      reserve := reserve[SpinDraw..];
      if item.origin == FromRack {
        rack := RemoveId(rack, item.id) + drawn;
      } else {
        rack := rack + drawn;
      }
      if item.origin == FromBoard {
        OnBoardTileSpun(item);
      }
      ok := true;
    }
  }
}
