// The game's state transitions on values: dropping a tile on the board,
// clicking a board tile back to the rack, the Boogie draw, the Spin
// exchange and the two rack callbacks. The Game class applies them to its
// fields; the lemmas here say what they keep and what they move.

module Progression {
  import opened Tiles

  /** The game state: board, rack, reserve and the id counter (the last id minted). */
  datatype Piles = Piles(board: Board, rack: seq<Tile>, reserve: seq<Tile>, lastId: TileId)

  // ---------------------------------------------------------------------------
  // Rack callbacks

  /** Removing a placed tile from the rack: keep every rack tile whose id differs, in order. */
  function RemoveId(rack: seq<Tile>, id: Option<TileId>): (r: seq<Tile>)
    ensures forall t :: t in r <==> t in rack && t.id != id
    ensures |r| <= |rack|
  {
    if rack == [] then []
    else if rack[0].id != id then [rack[0]] + RemoveId(rack[1..], id)
    else RemoveId(rack[1..], id)
  }

  /** How many rack tiles carry the id. */
  function CountId(rack: seq<Tile>, id: Option<TileId>): nat
  {
    if rack == [] then 0 else (if rack[0].id == id then 1 else 0) + CountId(rack[1..], id)
  }

  /**
   * Returning a tile to the rack: nothing happens when there is no tile,
   * when it has no id or when the rack already holds its id; otherwise the
   * tile is appended.
   */
  function ReturnToRack(rack: seq<Tile>, tile: Option<Tile>): (r: seq<Tile>)
    ensures r == rack || (tile.Some? && r == rack + [tile.value])
    ensures tile.Some? && tile.value.id.Some? ==> HasId(r, tile.value.id.value)
  {
    if tile.None? || tile.value.id.None? || HasId(rack, tile.value.id.value) then rack
    else
      assert (rack + [tile.value])[|rack|] == tile.value;
      rack + [tile.value]
  }

  // ---------------------------------------------------------------------------
  // Board transitions

  /**
   * Dropping a dragged tile on target: refused when target is occupied;
   * otherwise the tile's old cell (if it had one) is cleared, the tile is
   * stored at target, and a tile dragged from the rack leaves the rack.
   */
  function Drop(s: Piles, item: DragItem, target: Coord): (r: Piles)
    ensures target in s.board ==> r == s
    ensures target !in s.board ==> target in r.board && r.board[target].id == item.id && r.board[target].letter == item.letter
    ensures |r.rack| <= |s.rack|
    ensures r.reserve == s.reserve && r.lastId == s.lastId
  {
    if target in s.board then s
    else
      var cleared := if item.pos.Some? then s.board - {item.pos.value} else s.board;
      var rack := if item.origin == FromRack then RemoveId(s.rack, item.id) else s.rack;
      s.(board := cleared[target := Tile(item.id, item.letter, false)], rack := rack)
  }

  /** Clicking cell c: its tile is offered back to the rack and the cell is cleared. */
  function Click(s: Piles, c: Coord): (r: Piles)
    ensures c !in r.board && r.board.Keys == s.board.Keys - {c}
    ensures r.rack == s.rack || (c in s.board && r.rack == s.rack + [s.board[c]])
    ensures r.reserve == s.reserve && r.lastId == s.lastId
  {
    var tile := if c in s.board then Some(s.board[c]) else None;
    s.(board := s.board - {c}, rack := ReturnToRack(s.rack, tile))
  }

  // ---------------------------------------------------------------------------
  // Drawing from the reserve

  /** Drawn copies of tiles: same letters, new ids after lastId in order, marked new. */
  function Redrawn(tiles: seq<Tile>, lastId: TileId): (r: seq<Tile>)
    ensures |r| == |tiles|
    ensures forall k :: 0 <= k < |tiles| ==> r[k] == Tile(Some(lastId + k + 1), tiles[k].letter, true)
  {
    seq(|tiles|, k requires 0 <= k < |tiles| => Tile(Some(lastId + k + 1), tiles[k].letter, true))
  }

  /** Boogie: with a non-empty reserve, its front tile moves to the end of the rack with a new id. */
  function Boogie(s: Piles): (r: Piles)
    ensures r.board == s.board
    ensures |r.rack| + |r.reserve| == |s.rack| + |s.reserve|
    ensures |s.reserve| > 0 ==> |r.rack| == |s.rack| + 1 && r.rack[..|s.rack|] == s.rack && r.lastId == s.lastId + 1
  {
    if |s.reserve| == 0 then s
    else s.(rack := s.rack + Redrawn(s.reserve[..1], s.lastId), reserve := s.reserve[1..], lastId := s.lastId + 1)
  }

  /** The number of reserve tiles a spin needs and draws. */
  const SpinDraw: nat := 3

  /**
   * Spin: refused (nothing changes) with fewer than three reserve tiles;
   * otherwise the first three reserve tiles move to the end of the rack
   * with new ids, and the spun tile leaves play: a rack tile is filtered
   * out by id, a board tile's cell is cleared. It does not go back to the reserve.
   */
  function Spin(s: Piles, item: DragItem): (r: Piles)
    ensures r == s <==> |s.reserve| < SpinDraw
    ensures |s.reserve| >= SpinDraw ==> |r.reserve| == |s.reserve| - SpinDraw && r.lastId == s.lastId + SpinDraw
  {
    if |s.reserve| < SpinDraw then s
    else
      var kept := if item.origin == FromRack then RemoveId(s.rack, item.id) else s.rack;
      var board := if item.origin == FromBoard && item.pos.Some? then s.board - {item.pos.value} else s.board;
      Piles(board, kept + Redrawn(s.reserve[..SpinDraw], s.lastId), s.reserve[SpinDraw..], s.lastId + SpinDraw)
  }

  // ---------------------------------------------------------------------------
  // The invariant on ids

  /** No two tiles of ts share an id. */
  predicate DistinctIds(ts: seq<Tile>)
  {
    forall i, j :: 0 <= i < j < |ts| ==> ts[i].id != ts[j].id
  }

  /**
   * The id invariant: every rack tile has an id, ids are unique across the
   * rack and the board, and none is above the counter (so a newly minted id
   * is unused).
   */
  predicate Inv(s: Piles)
  {
    && (forall k :: 0 <= k < |s.rack| ==> s.rack[k].id.Some? && s.rack[k].id.value <= s.lastId)
    && DistinctIds(s.rack)
    && (forall p :: p in s.board && s.board[p].id.Some? ==> s.board[p].id.value <= s.lastId)
    && (forall p, q :: p in s.board && q in s.board && p != q && s.board[p].id.Some? ==> s.board[p].id != s.board[q].id)
    && (forall p, k :: p in s.board && 0 <= k < |s.rack| ==> s.rack[k].id != s.board[p].id)
  }

  /** Inv, and every board tile carries an id as well. */
  predicate InvAllIds(s: Piles)
  {
    Inv(s) && forall p :: p in s.board ==> s.board[p].id.Some?
  }

  /** The drag item a rack tile produces: its id and letter, no cell, origin rack. */
  predicate IsRackDrag(s: Piles, item: DragItem)
  {
    && item.origin == FromRack && item.pos.None?
    && exists k :: 0 <= k < |s.rack| && s.rack[k].id == item.id && s.rack[k].letter == item.letter
  }

  /**
   * The drag item a board tile produces as the board cell renders it: its
   * letter and cell, origin board, and no id.
   */
  function BoardDragAsWritten(s: Piles, p: Coord): DragItem
    requires p in s.board
  {
    DragItem(None, s.board[p].letter, Some(p), FromBoard)
  }

  /** The board tile's drag item when it also carries the tile's id. */
  function BoardDrag(s: Piles, p: Coord): DragItem
    requires p in s.board
  {
    DragItem(s.board[p].id, s.board[p].letter, Some(p), FromBoard)
  }

  // ---------------------------------------------------------------------------
  // Lemmas: the rack callbacks

  lemma {:induction false} RemoveIdAbsent(rack: seq<Tile>, id: Option<TileId>)
    requires forall k :: 0 <= k < |rack| ==> rack[k].id != id
    ensures RemoveId(rack, id) == rack
  {
    if rack != [] {
      RemoveIdAbsent(rack[1..], id);
    }
  }

  /**
   * Removing by id drops exactly the tiles carrying it, so with unique ids
   * and the id present the rack shrinks by exactly one.
   */
  lemma {:induction false} RemoveIdCount(rack: seq<Tile>, id: Option<TileId>)
    ensures |RemoveId(rack, id)| == |rack| - CountId(rack, id)
    ensures DistinctIds(rack) && (exists k :: 0 <= k < |rack| && rack[k].id == id) ==> CountId(rack, id) == 1
  {
    if rack != [] {
      RemoveIdCount(rack[1..], id);
      if DistinctIds(rack) && (exists k :: 0 <= k < |rack| && rack[k].id == id) {
        if rack[0].id == id {
          RemoveIdAbsent(rack[1..], id);
          CountIdAbsent(rack[1..], id);
        } else {
          var k :| 0 <= k < |rack| && rack[k].id == id;
          assert rack[1..][k - 1].id == id;
        }
      }
    }
  }

  lemma {:induction false} CountIdAbsent(rack: seq<Tile>, id: Option<TileId>)
    requires forall k :: 0 <= k < |rack| ==> rack[k].id != id
    ensures CountId(rack, id) == 0
  {
    if rack != [] {
      CountIdAbsent(rack[1..], id);
    }
  }

  /** Removing by id keeps the remaining ids unique. */
  lemma {:induction false} RemoveIdKeepsDistinct(rack: seq<Tile>, id: Option<TileId>)
    requires DistinctIds(rack)
    ensures DistinctIds(RemoveId(rack, id))
  {
    if rack != [] {
      RemoveIdKeepsDistinct(rack[1..], id);
      var rest := RemoveId(rack[1..], id);
      if rack[0].id != id {
        var r := [rack[0]] + rest;
        forall i, j | 0 <= i < j < |r| ensures r[i].id != r[j].id {
          if i == 0 {
            assert r[j] in rest;
            var m :| 0 <= m < |rack[1..]| && rack[1..][m] == r[j];
            assert rack[m + 1] == r[j];
          }
        }
      }
    }
  }

  /** Filtering by id distributes over concatenation, so it keeps the tiles' order. */
  lemma {:induction false} RemoveIdAppend(a: seq<Tile>, b: seq<Tile>, id: Option<TileId>)
    ensures RemoveId(a + b, id) == RemoveId(a, id) + RemoveId(b, id)
  {
    if a == [] {
      assert a + b == b;
    } else {
      assert (a + b)[0] == a[0] && (a + b)[1..] == a[1..] + b;
      RemoveIdAppend(a[1..], b, id);
    }
  }

  /**
   * With unique ids, filtering out the id of the tile at k removes exactly
   * that tile and keeps the others in rack order.
   */
  lemma RemoveIdAt(rack: seq<Tile>, k: nat)
    requires DistinctIds(rack) && k < |rack|
    ensures RemoveId(rack, rack[k].id) == rack[..k] + rack[k + 1..]
  {
    var id := rack[k].id;
    var before, after := rack[..k], rack[k + 1..];
    IdOnlyAt(rack, k, before, after);
    RemoveIdAbsent(before, id);
    RemoveIdAbsent(after, id);
    RemoveIdOne(rack[k]);
    RemoveIdAppend([rack[k]], after, id);
    RemoveIdAppend(before, [rack[k]] + after, id);
    SplitAt(rack, k);
  }

  lemma SplitAt(rack: seq<Tile>, k: nat)
    requires k < |rack|
    ensures rack == rack[..k] + ([rack[k]] + rack[k + 1..])
  {
  }

  lemma IdOnlyAt(rack: seq<Tile>, k: nat, before: seq<Tile>, after: seq<Tile>)
    requires DistinctIds(rack) && k < |rack|
    requires before == rack[..k] && after == rack[k + 1..]
    ensures forall j :: 0 <= j < |before| ==> before[j].id != rack[k].id
    ensures forall j :: 0 <= j < |after| ==> after[j].id != rack[k].id
  {
    forall j | 0 <= j < |after| ensures after[j].id != rack[k].id {
      assert after[j] == rack[k + 1 + j];
    }
  }

  lemma RemoveIdOne(t: Tile)
    ensures RemoveId([t], t.id) == []
  {
    assert [t][1..] == [];
  }

  /**
   * Return-to-rack never duplicates an id: a rack with unique ids keeps
   * them, the tile is appended exactly when it has an id the rack lacks,
   * and afterwards the rack holds that id.
   */
  lemma ReturnToRackKeepsIdsUnique(rack: seq<Tile>, tile: Option<Tile>)
    requires DistinctIds(rack)
    ensures DistinctIds(ReturnToRack(rack, tile))
    ensures ReturnToRack(rack, tile)
         == if tile.Some? && tile.value.id.Some? && !HasId(rack, tile.value.id.value) then rack + [tile.value] else rack
    ensures tile.Some? && tile.value.id.Some? ==> HasId(ReturnToRack(rack, tile), tile.value.id.value)
  {
    if tile.Some? && tile.value.id.Some? && !HasId(rack, tile.value.id.value) {
      var r := rack + [tile.value];
      assert r[|rack|].id == tile.value.id;
    }
  }

  // ---------------------------------------------------------------------------
  // Lemmas: Boogie

  /**
   * Boogie with an empty reserve changes nothing; otherwise the reserve
   * loses exactly its front tile and the rack gains exactly one tile at its
   * end, with that tile's letter, a fresh id and the new mark. No tile is
   * lost: rack and reserve together keep their size and their letters.
   */
  lemma BoogieMovesFrontTile(s: Piles)
    ensures |s.reserve| == 0 ==> Boogie(s) == s
    ensures |s.reserve| > 0 ==>
      var r := Boogie(s);
      && r.board == s.board
      && r.reserve == s.reserve[1..]
      && r.rack[..|s.rack|] == s.rack && |r.rack| == |s.rack| + 1
      && r.rack[|s.rack|].letter == s.reserve[0].letter && r.rack[|s.rack|].isNew
      && r.rack[|s.rack|].id == Some(s.lastId + 1) && r.lastId == s.lastId + 1
    ensures |Boogie(s).rack| + |Boogie(s).reserve| == |s.rack| + |s.reserve|
    ensures multiset(LettersOf(Boogie(s).rack + Boogie(s).reserve)) == multiset(LettersOf(s.rack + s.reserve))
  {
    if |s.reserve| > 0 {
      var r := Boogie(s);
      assert LettersOf(r.rack + r.reserve) == LettersOf(s.rack) + [s.reserve[0].letter] + LettersOf(s.reserve[1..]);
      assert LettersOf(s.rack + s.reserve) == LettersOf(s.rack) + ([s.reserve[0].letter] + LettersOf(s.reserve[1..]));
    }
  }

  /**
   * Boogie keeps the id invariant, also on boards holding tiles without an
   * id: the drawn tile's id is above every id in play.
   */
  lemma BoogieKeepsInv(s: Piles)
    requires Inv(s)
    ensures Inv(Boogie(s))
    ensures InvAllIds(s) ==> InvAllIds(Boogie(s))
  {
    if |s.reserve| > 0 {
      var r := Boogie(s);
      assert r.rack[|s.rack|].id == Some(s.lastId + 1);
      forall i, j | 0 <= i < j < |r.rack| ensures r.rack[i].id != r.rack[j].id {
        if j < |s.rack| {
          assert r.rack[i] == s.rack[i] && r.rack[j] == s.rack[j];
        } else {
          assert r.rack[i] == s.rack[i];
        }
      }
      forall p, k | p in r.board && 0 <= k < |r.rack| ensures r.rack[k].id != r.board[p].id {
        if k < |s.rack| { assert r.rack[k] == s.rack[k]; }
      }
    }
  }

  // ---------------------------------------------------------------------------
  // Lemmas: Spin

  /**
   * Spin with fewer than three reserve tiles changes nothing. Otherwise
   * the reserve loses exactly its first three tiles (the spun tile is not
   * put back), the rack ends with three tiles carrying those letters in
   * order, fresh ids and the new mark, a rack tile being spun is filtered
   * out by id and a board tile being spun has its cell cleared.
   */
  lemma SpinExchanges(s: Piles, item: DragItem)
    ensures |s.reserve| < SpinDraw ==> Spin(s, item) == s
    ensures |s.reserve| >= SpinDraw ==>
      var r := Spin(s, item);
      && r.reserve == s.reserve[SpinDraw..]
      && |r.rack| >= SpinDraw
      && LettersOf(r.rack[|r.rack| - SpinDraw..]) == LettersOf(s.reserve[..SpinDraw])
      && (forall k :: |r.rack| - SpinDraw <= k < |r.rack| ==> r.rack[k].isNew && r.rack[k].id.Some? && r.rack[k].id.value > s.lastId)
      && r.lastId == s.lastId + SpinDraw
      && (item.origin == FromRack ==> r.rack[..|r.rack| - SpinDraw] == RemoveId(s.rack, item.id) && r.board == s.board)
      && (item.origin == FromBoard ==> r.rack[..|r.rack| - SpinDraw] == s.rack)
      && (item.origin == FromBoard && item.pos.Some? ==> item.pos.value !in r.board && r.board == s.board - {item.pos.value})
  {
    if |s.reserve| >= SpinDraw {
      var r := Spin(s, item);
      var kept := if item.origin == FromRack then RemoveId(s.rack, item.id) else s.rack;
      assert r.rack[..|r.rack| - SpinDraw] == kept;
      assert r.rack[|r.rack| - SpinDraw..] == Redrawn(s.reserve[..SpinDraw], s.lastId);
    }
  }

  /**
   * Spinning a tile in play removes exactly that tile from play: rack,
   * board and reserve together hold one tile less (three move from the
   * reserve to the rack, the spun one is gone).
   */
  lemma SpinDiscardsOneTile(s: Piles, item: DragItem)
    requires Inv(s) && |s.reserve| >= SpinDraw
    requires IsRackDrag(s, item) || (item.origin == FromBoard && item.pos.Some? && item.pos.value in s.board)
    ensures |Spin(s, item).rack| + |Spin(s, item).board| + |Spin(s, item).reserve|
         == |s.rack| + |s.board| + |s.reserve| - 1
  {
    if item.origin == FromRack {
      RemoveIdCount(s.rack, item.id);
    }
  }

  /** Spin keeps the id invariant, whatever tile is spun. */
  lemma SpinKeepsInv(s: Piles, item: DragItem)
    requires Inv(s)
    ensures Inv(Spin(s, item))
  {
    if |s.reserve| >= SpinDraw {
      var r := Spin(s, item);
      var kept := if item.origin == FromRack then RemoveId(s.rack, item.id) else s.rack;
      var drawn := Redrawn(s.reserve[..SpinDraw], s.lastId);
      RemoveIdKeepsDistinct(s.rack, item.id);
      assert r.rack == kept + drawn;
      forall k | 0 <= k < |kept| ensures kept[k] in s.rack { }
      forall i, j | 0 <= i < j < |r.rack| ensures r.rack[i].id != r.rack[j].id {
        if j < |kept| {
          assert r.rack[i] == kept[i] && r.rack[j] == kept[j];
        } else if i < |kept| {
          assert r.rack[i] == kept[i] && kept[i] in s.rack;
        }
      }
      forall k | 0 <= k < |r.rack| ensures r.rack[k].id.Some? && r.rack[k].id.value <= r.lastId {
        if k < |kept| { assert r.rack[k] == kept[k] && kept[k] in s.rack; }
      }
      forall p, k | p in r.board && 0 <= k < |r.rack| ensures r.rack[k].id != r.board[p].id {
        if k < |kept| { assert r.rack[k] == kept[k] && kept[k] in s.rack; }
      }
    }
  }

  // ---------------------------------------------------------------------------
  // Lemmas: dropping and clicking

  /**
   * A drop on an occupied cell changes nothing. Otherwise the target holds
   * the dropped tile, the tile's old cell (if any, and not the target) is
   * empty, every other cell keeps its tile, and the rack changes only for
   * a tile dragged from the rack, which is filtered out by id.
   */
  lemma DropPlacesTile(s: Piles, item: DragItem, target: Coord)
    ensures target in s.board ==> Drop(s, item, target) == s
    ensures target !in s.board ==>
      var r := Drop(s, item, target);
      && target in r.board && r.board[target] == Tile(item.id, item.letter, false)
      && (item.pos.Some? && item.pos.value != target ==> item.pos.value !in r.board)
      && (forall p :: p != target && (item.pos.None? || p != item.pos.value) ==>
            (p in r.board <==> p in s.board) && (p in r.board ==> r.board[p] == s.board[p]))
      && r.rack == (if item.origin == FromRack then RemoveId(s.rack, item.id) else s.rack)
      && r.reserve == s.reserve && r.lastId == s.lastId
  {
  }

  /**
   * No tile is created or lost by a drop: a rack tile moves from the rack
   * to the board, and a board tile moved to an empty cell keeps the board's size.
   */
  lemma DropConservesTiles(s: Piles, item: DragItem, target: Coord)
    requires Inv(s) && target !in s.board
    requires IsRackDrag(s, item) || (item.origin == FromBoard && item.pos.Some? && item.pos.value in s.board)
    ensures |Drop(s, item, target).board| + |Drop(s, item, target).rack| == |s.board| + |s.rack|
    ensures item.origin == FromBoard ==> |Drop(s, item, target).board| == |s.board|
  {
    var t := Tile(item.id, item.letter, false);
    if item.origin == FromRack {
      RemoveIdCount(s.rack, item.id);
      StoreGrows(s.board, target, t);
    } else {
      var p := item.pos.value;
      assert |s.board - {p}| == |s.board| - 1;
      StoreGrows(s.board - {p}, target, t);
    }
  }

  lemma StoreGrows(b: Board, c: Coord, t: Tile)
    requires c !in b
    ensures |b[c := t]| == |b| + 1
  {
    assert b[c := t].Keys == b.Keys + {c};
  }

  /** Drops made by rack tiles and by board tiles that carry their id keep InvAllIds. */
  lemma DropKeepsInv(s: Piles, item: DragItem, target: Coord)
    requires InvAllIds(s)
    requires IsRackDrag(s, item) || exists p :: p in s.board && item == BoardDrag(s, p)
    ensures InvAllIds(Drop(s, item, target))
  {
    if target !in s.board {
      var r := Drop(s, item, target);
      if item.origin == FromRack {
        var k :| 0 <= k < |s.rack| && s.rack[k].id == item.id && s.rack[k].letter == item.letter;
        RemoveIdKeepsDistinct(s.rack, item.id);
        forall j | 0 <= j < |r.rack| ensures r.rack[j] in s.rack { assert r.rack[j] in r.rack; }
        forall p, q | p in r.board && q in r.board && p != q && r.board[p].id.Some?
          ensures r.board[p].id != r.board[q].id
        {
          if p == target { assert q in s.board; }
          else if q == target { assert p in s.board; }
        }
        forall p, j | p in r.board && 0 <= j < |r.rack| ensures r.rack[j].id != r.board[p].id {
          assert r.rack[j] in r.rack;
        }
      } else {
        var p0 :| p0 in s.board && item == BoardDrag(s, p0);
        forall p, q | p in r.board && q in r.board && p != q && r.board[p].id.Some?
          ensures r.board[p].id != r.board[q].id
        {
          if p == target { assert q in s.board && q != p0; }
          else if q == target { assert p in s.board && p != p0; }
        }
      }
    }
  }

  /**
   * Clicking clears the cell whatever happens to the rack, and the tile
   * goes to the end of the rack when it has an id; under InvAllIds every
   * board tile has one, so a click moves exactly one tile from the board
   * to the rack and keeps InvAllIds.
   */
  lemma ClickReturnsTile(s: Piles, c: Coord)
    requires InvAllIds(s) && c in s.board
    ensures c !in Click(s, c).board && Click(s, c).board == s.board - {c}
    ensures Click(s, c).rack == s.rack + [s.board[c]]
    ensures |Click(s, c).board| + |Click(s, c).rack| == |s.board| + |s.rack|
    ensures InvAllIds(Click(s, c))
  {
    var t := s.board[c];
    assert !HasId(s.rack, t.id.value);
    var r := Click(s, c);
    assert r.rack == s.rack + [t];
    forall i, j | 0 <= i < j < |r.rack| ensures r.rack[i].id != r.rack[j].id {
      if j == |s.rack| { assert r.rack[i] == s.rack[i]; }
    }
    forall p, k | p in r.board && 0 <= k < |r.rack| ensures r.rack[k].id != r.board[p].id {
      if k < |s.rack| { assert r.rack[k] == s.rack[k]; }
    }
  }

  /**
   * Clicking keeps the id invariant on every board, including one holding
   * tiles without an id; such a tile is cleared from the board and the rack
   * is left as it was, so it leaves play.
   */
  lemma ClickKeepsInv(s: Piles, c: Coord)
    requires Inv(s)
    ensures Inv(Click(s, c))
    ensures c in s.board && s.board[c].id.None? ==> Click(s, c).rack == s.rack && |Click(s, c).board| == |s.board| - 1
  {
    var r := Click(s, c);
    if c in s.board && s.board[c].id.Some? && !HasId(s.rack, s.board[c].id.value) {
      var t := s.board[c];
      assert r.rack == s.rack + [t];
      forall i, j | 0 <= i < j < |r.rack| ensures r.rack[i].id != r.rack[j].id {
        if j == |s.rack| { assert r.rack[i] == s.rack[i]; }
      }
      forall k | 0 <= k < |r.rack| ensures r.rack[k].id.Some? && r.rack[k].id.value <= r.lastId {
        if k < |s.rack| { assert r.rack[k] == s.rack[k]; }
      }
      forall p, k | p in r.board && 0 <= k < |r.rack| ensures r.rack[k].id != r.board[p].id {
        if k < |s.rack| { assert r.rack[k] == s.rack[k]; }
      }
    }
  }

  /**
   * Drops as the game makes them, with a board tile's drag item lacking its
   * id, keep the id invariant: a moved board tile is stored without an id,
   * which clashes with no other tile.
   */
  lemma DropAsWrittenKeepsInv(s: Piles, item: DragItem, target: Coord)
    requires Inv(s)
    requires IsRackDrag(s, item) || exists p :: p in s.board && item == BoardDragAsWritten(s, p)
    ensures Inv(Drop(s, item, target))
  {
    if target !in s.board {
      var r := Drop(s, item, target);
      if item.origin == FromRack {
        var k :| 0 <= k < |s.rack| && s.rack[k].id == item.id && s.rack[k].letter == item.letter;
        RemoveIdKeepsDistinct(s.rack, item.id);
        forall j | 0 <= j < |r.rack| ensures r.rack[j] in s.rack { assert r.rack[j] in r.rack; }
        forall p, q | p in r.board && q in r.board && p != q && r.board[p].id.Some?
          ensures r.board[p].id != r.board[q].id
        {
          if p == target { assert q in s.board; }
          else if q == target { assert p in s.board; }
        }
        forall p, j | p in r.board && 0 <= j < |r.rack| ensures r.rack[j].id != r.board[p].id {
          assert r.rack[j] in r.rack;
        }
      }
    }
  }

  // ---------------------------------------------------------------------------
  // Finding: the board cell's drop guard reads a prop it is never given

  /**
   * A board cell's drop: the cell first looks the target up in its own
   * tiles prop and hands the drop to the board only when the target is
   * free there. None is the lookup failing because the prop is missing,
   * so the board never sees the drop.
   */
  function CellDrop(cellTiles: Option<Board>, s: Piles, item: DragItem, target: Coord): (r: Option<Piles>)
    ensures cellTiles.None? <==> r.None?
    ensures r.Some? && target !in cellTiles.value ==> r.value == Drop(s, item, target)
  {
    if cellTiles.None? then None
    else if target in cellTiles.value then Some(s)
    else Some(Drop(s, item, target))
  }

  /**
   * As the board renders its cells (without the tiles prop), dropping a
   * rack tile on an empty board fails in the cell, so the tile stays on
   * the rack and the board stays empty.
   */
  lemma CellDropWithoutTilesFails()
    ensures
      var s0 := Piles(map[], [Tile(Some(1), 'A', false)], [], 1);
      var item := DragItem(Some(1), 'A', None, FromRack);
      && Coord(0, 0) !in s0.board
      && Drop(s0, item, Coord(0, 0)).board != s0.board
      && CellDrop(None, s0, item, Coord(0, 0)).None?
  {
    var s0 := Piles(map[], [Tile(Some(1), 'A', false)], [], 1);
    var item := DragItem(Some(1), 'A', None, FromRack);
    assert Coord(0, 0) in Drop(s0, item, Coord(0, 0)).board;
  }

  /**
   * Given the current board as its tiles prop, the cell's drop is exactly
   * the board's drop: its own occupancy test agrees with the board's.
   */
  lemma CellDropWithTiles(s: Piles, item: DragItem, target: Coord)
    ensures CellDrop(Some(s.board), s, item, target) == Some(Drop(s, item, target))
  {
    if target in s.board {
      assert Drop(s, item, target) == s;
    }
  }

  // ---------------------------------------------------------------------------
  // Finding: a tile moved on the board loses its id and then vanishes on click

  /**
   * As the board cell renders its tile (without an id), dragging a placed
   * tile to another cell stores it without an id, and clicking it then
   * clears the cell without returning the tile: the rack tile 'A' is gone
   * from play after drop, move, click.
   */
  lemma MovedTileVanishesOnClick()
    ensures
      var s0 := Piles(map[], [Tile(Some(1), 'A', false)], [], 1);
      var s1 := Drop(s0, DragItem(Some(1), 'A', None, FromRack), Coord(0, 0));
      var s2 := Drop(s1, BoardDragAsWritten(s1, Coord(0, 0)), Coord(1, 0));
      var s3 := Click(s2, Coord(1, 0));
      && |s0.board| + |s0.rack| == 1
      && s3.board == map[] && s3.rack == []
  {
    var s0 := Piles(map[], [Tile(Some(1), 'A', false)], [], 1);
    assert RemoveId(s0.rack, Some(1)) == [];
    var s1 := Drop(s0, DragItem(Some(1), 'A', None, FromRack), Coord(0, 0));
    assert s1.board == map[Coord(0, 0) := Tile(Some(1), 'A', false)] && s1.rack == [];
    var s2 := Drop(s1, BoardDragAsWritten(s1, Coord(0, 0)), Coord(1, 0));
    assert s2.board == map[Coord(1, 0) := Tile(None, 'A', false)];
  }

  /**
   * With the board tile's id in its drag item, the same drop, move, click
   * sequence brings the tile back to the rack: in general a drop or a click
   * never changes the number of tiles on the board and in the rack.
   */
  lemma MovedTileReturnsOnClick(s: Piles, p: Coord, target: Coord)
    requires InvAllIds(s) && p in s.board && target !in s.board
    ensures
      var s1 := Drop(s, BoardDrag(s, p), target);
      var s2 := Click(s1, target);
      && InvAllIds(s2)
      && s2.rack == s.rack + [s.board[p].(isNew := false)]
      && s2.board == s.board - {p}
      && |s2.board| + |s2.rack| == |s.board| + |s.rack|
  {
    var s1 := Drop(s, BoardDrag(s, p), target);
    DropKeepsInv(s, BoardDrag(s, p), target);
    DropConservesTiles(s, BoardDrag(s, p), target);
    ClickReturnsTile(s1, target);
    assert s1.board[target] == s.board[p].(isNew := false);
    assert s1.board - {target} == s.board - {p};
  }
}
