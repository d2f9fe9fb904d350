# CabanaTiles — a verified model of the game core

CabanaTiles is a single-player word game in the browser. The player gets a
rack of letter tiles drawn from a shuffled pool and drags tiles onto a 42 × 24
grid. The game highlights every tile whose row word and column word are all
real words. "Boogie" draws one more tile from the reserve. "Spin" discards a
tile in exchange for three new ones. Clicking a board tile sends it back to
the rack.

This project models the game core in Dafny and proves properties of it:

- `Tiles.dfy`: the shared vocabulary. A board cell is a `Coord` (the source's
  `"x,y"` key). A tile id is a number (the source's `"tile-N"`). A `Tile`
  carries an optional id, a letter and the new-tile flag. A `DragItem` is what
  a drag or a spin request carries.
- `Dictionary.dfy`: word lookup. It holds the fixed two-letter whitelist, the
  word set built from the loaded word list, and `IsValidWord`. The word set is
  `None` until the list has loaded.
- `WordValidation.dfy`: the highlighting engine, which computes the set of
  valid cells.
  - One method scans a grid line in either direction and collects the runs of
    two or more letters.
  - Two methods file each run's lower-cased word under its cells and keep the
    cells whose words are all accepted.
  - `ValidateWords` runs them over the 24 rows and 42 columns. It is proved
    equal to a declarative rule, `CellValid`: a cell is highlighted exactly
    when it lies in an across or down word of at least two letters, and every
    such word through it is accepted.
- `ValidationExamples.dfy`: small boards on which that rule is worked out.
- `TilePool.dfy`: game start-up. It expands the letter distribution, shuffles
  with Fisher–Yates on an array, cuts the pool to 76 tiles, numbers the ids,
  and splits the pool into a 21-tile rack and the reserve.
- `Progression.dfy`: the game's transitions on a value `Piles` (board, rack,
  reserve, id counter). These are the drop, the click, Boogie, Spin and the
  two rack callbacks. Lemmas cover what each transition moves and conserves,
  and an id-uniqueness invariant the transitions keep.
- `Game.dfy`: a class `Game` with the page's mutable state as fields. Each
  handler is a method proved to leave the state that the matching
  `Progression` transition computes from the old state.

`frontend/src/App.jsx` and `frontend/src/components/GamePage.jsx` hold the
same game-state code. The class cites `App.jsx` and the transition lemmas cite
`GamePage.jsx`.

The shuffle's random choices (`Math.random`) are a parameter `swaps`, with
`swaps[i] <= i` for the swap made at index `i`. The word list (fetched from
`/sowpods.json`) is a parameter: the `Option` word set, or the raw list given
to `LoadWordSet`.

## Model

| member | source | states |
|---|---|---|
| `Dictionary.IsValidWord` | frontend/src/components/GameBoard.jsx:174-180 | a word is accepted only if it has at least two letters and its lower-cased form is on the two-letter whitelist or in the loaded word set |
| `Dictionary.LoadWordSet` | frontend/src/components/GameBoard.jsx:62 | every list entry's lower-cased form is in the set, and every word in the set is already lower case |
| `Dictionary.ShortWordRejected` | frontend/src/components/GameBoard.jsx:174-175 | an empty or one-letter word is never accepted, whatever the word set |
| `Dictionary.TwoLetterWordIgnoresWordSet` | frontend/src/components/GameBoard.jsx:67-180 | a two-letter word is accepted iff its lower-cased form is on the whitelist; the loaded word set (or its absence) never changes the answer |
| `Dictionary.LongWordNeedsWordSet` | frontend/src/components/GameBoard.jsx:176-179 | a word of three or more letters is accepted iff the word set is loaded and holds its lower-cased form; before loading it is rejected |
| `Dictionary.CaseInsensitive` | frontend/src/components/GameBoard.jsx:176 | a word and its lower-cased form always get the same answer |
| `Dictionary.LoadedLookup` | frontend/src/components/GameBoard.jsx:58-65 | once the list is loaded, a long word is accepted iff some list entry equals it up to case |
| `WordValidation.ScanLine` | frontend/src/components/GameBoard.jsx:188-217 | every run collected from line f is a maximal block of at least two occupied cells in that line, with its letters in order; every such block is collected (the same method scans columns, lines 220-249) |
| `WordValidation.CloseRun` | frontend/src/components/GameBoard.jsx:206-216 | closing the block that ends at e keeps it as a run exactly when it has two or more tiles; afterwards every collected run is a maximal block of the line, and every word-forming block starting before e has been collected |
| `WordValidation.BlockIsRun` | frontend/src/components/GameBoard.jsx:194-214 | inside a maximal occupied block every cell is occupied, the run through it is the whole block, and it forms a word iff the block has at least two cells |
| `WordValidation.FileWord` | frontend/src/components/GameBoard.jsx:255-258 | filing a word under positions adds it to exactly those cells' word sets and leaves every other entry as it was |
| `WordValidation.IndexRuns` | frontend/src/components/GameBoard.jsx:251-259 | a cell has an entry iff some run covers it, the entry is the set of lower-cased words of the runs covering it, and the accepted set is exactly the accepted lower-cased words |
| `WordValidation.TrulyValidPositions` | frontend/src/components/GameBoard.jsx:261-265 | a cell is kept iff it has an entry and every word in it is accepted |
| `WordValidation.CoveringWords` | frontend/src/components/GameBoard.jsx:251-259 | when the scanned runs are exactly the board's runs, the words filed under a cell are the words of the across and down runs through it |
| `WordValidation.AcceptedCovering` | frontend/src/components/GameBoard.jsx:252-254 | a covering word is in the accepted set iff the lookup accepts it |
| `WordValidation.ValidateWords` | frontend/src/components/GameBoard.jsx:182-268 | a cell is highlighted iff it is in the grid, holds a tile, lies in an across or down word, and every such word through it is accepted; only occupied cells are highlighted |
| `WordValidation.IsolatedTileNeverValid` | frontend/src/components/GameBoard.jsx:211-216 | a tile with no neighbour on any side is never highlighted |
| `WordValidation.NeighboursFormRun` | frontend/src/components/GameBoard.jsx:202-204 | two horizontally adjacent tiles lie in the same across word |
| `WordValidation.SharedCellNeedsBothWords` | frontend/src/components/GameBoard.jsx:261-265 | a cell crossed by an across and a down word is highlighted iff both words are accepted |
| `ValidationExamples.LoneWordValid` | frontend/src/components/GameBoard.jsx:182-268 | with "cat" in the word set, every tile of CAT laid across is highlighted |
| `ValidationExamples.UnloadedWordListRejects` | frontend/src/components/GameBoard.jsx:178-179 | before the word list loads, no tile of CAT is highlighted |
| `ValidationExamples.CrossingRejectedWord` | frontend/src/components/GameBoard.jsx:261-265 | a down word CZT that is not accepted un-highlights the shared C while A of CAT stays highlighted |
| `TilePool.DistributionTotal` | frontend/src/App.jsx:25-52 | the letter table holds 144 tiles in all, so the 76 a game takes are always available |
| `TilePool.ExpansionCounts` | frontend/src/App.jsx:61-64 | the expanded pool holds each letter exactly as many times as the distribution gives it |
| `TilePool.ExpandDistribution` | frontend/src/App.jsx:60-64 | the loop builds the expansion: the letters in table order, each repeated by its count, total length the sum of the counts |
| `TilePool.ShuffleDownPermutes` | frontend/src/App.jsx:66-69 | the Fisher–Yates swaps keep the multiset of letters |
| `TilePool.ShuffleInPlace` | frontend/src/App.jsx:66-69 | the in-place shuffle leaves the array equal to the swap sequence applied from the top index down, and is a permutation of the old contents |
| `TilePool.NumberTiles` | frontend/src/App.jsx:71-74 | each letter becomes a tile, in order, with ids firstId+1, firstId+2, ... and the new mark off; the counter ends at firstId plus the number of tiles |
| `TilePool.GenerateScaledTilePool` | frontend/src/App.jsx:60-75 | the pool has min(target, total) tiles; ids run firstId+1, firstId+2, ... and are pairwise distinct; the counter ends at the last id; the letters are the shuffled expansion's prefix and a sub-multiset of the distribution |
| `TilePool.InitialRack` | frontend/src/App.jsx:82-84 | the starting rack is a prefix of the pool of at most 21 tiles: exactly 21 when the pool has that many, the whole pool otherwise |
| `TilePool.InitialReserve` | frontend/src/App.jsx:85-87 | the starting rack followed by the starting reserve is the whole pool |
| `Progression.RemoveId` | frontend/src/App.jsx:172-179 | the filtered rack holds exactly the rack tiles whose id differs from the spun or placed tile's, and is no longer than the rack |
| `Progression.RemoveIdAppend` | frontend/src/components/GamePage.jsx:219-225 | filtering by id distributes over concatenation, so the kept tiles stay in rack order |
| `Progression.RemoveIdAt` | frontend/src/components/GamePage.jsx:219-225 | with unique ids, filtering out the id of the tile at position k leaves the rack without exactly that tile, the others in order |
| `Progression.RemoveIdCount` | frontend/src/components/GamePage.jsx:219-225 | filtering by id drops exactly the tiles carrying it; with unique ids and the id present the rack shrinks by exactly one |
| `Progression.RemoveIdKeepsDistinct` | frontend/src/components/GamePage.jsx:219-225 | filtering keeps rack ids unique |
| `Progression.ReturnToRack` | frontend/src/components/GamePage.jsx:226-250 | the rack is either unchanged or gains exactly the offered tile at its end; a tile with an id is on the rack afterwards |
| `Progression.ReturnToRackKeepsIdsUnique` | frontend/src/components/GamePage.jsx:226-250 | the tile is appended exactly when it has an id the rack lacks; afterwards the rack holds the id, and ids stay unique |
| `Progression.Boogie` | frontend/src/components/GamePage.jsx:111-134 | the board is unchanged and rack plus reserve keep their size; with a non-empty reserve the rack grows by one tile at its end and the counter by one |
| `Progression.Redrawn` | frontend/src/components/GamePage.jsx:116-121 | drawn copies keep the letters in order, take the ids after the counter in order, and are marked new |
| `Progression.BoogieMovesFrontTile` | frontend/src/components/GamePage.jsx:110-135 | an empty reserve changes nothing; otherwise the front reserve tile's letter joins the end of the rack with id counter+1 and the new mark; rack plus reserve keep their size and letters |
| `Progression.BoogieKeepsInv` | frontend/src/components/GamePage.jsx:110-135 | Boogie keeps ids unique across rack and board and below the counter, also on boards holding tiles without an id; it also keeps every board tile's id where all had one |
| `Progression.Spin` | frontend/src/components/GamePage.jsx:157-184 | the state is unchanged iff the reserve has fewer than three tiles; otherwise the reserve shrinks by three and the counter grows by three |
| `Progression.SpinExchanges` | frontend/src/components/GamePage.jsx:157-184 | fewer than three reserve tiles: no change; otherwise the reserve loses its first three tiles, the rack ends with their letters under fresh ids marked new, a spun rack tile is filtered out by id and a spun board tile's cell is cleared |
| `Progression.SpinDiscardsOneTile` | frontend/src/components/GamePage.jsx:163-181 | spinning a tile in play leaves rack, board and reserve with exactly one tile fewer in all |
| `Progression.SpinKeepsInv` | frontend/src/components/GamePage.jsx:157-184 | Spin keeps ids unique across rack and board and below the counter, whatever tile is spun |
| `Progression.Drop` | frontend/src/components/GameBoard.jsx:274-292 | a drop on an occupied cell changes nothing; otherwise the target holds a tile with the dragged id and letter; the rack never grows; reserve and counter are unchanged |
| `Progression.DropPlacesTile` | frontend/src/components/GameBoard.jsx:274-292 | a drop on an occupied cell changes nothing; otherwise the target holds the tile, its old cell is empty, every other cell is unchanged, and only a rack tile leaves the rack |
| `Progression.DropConservesTiles` | frontend/src/components/GameBoard.jsx:274-292 | a drop on an empty cell keeps the number of tiles on board and rack together; a board-to-board move keeps the board's size |
| `Progression.DropAsWrittenKeepsInv` | frontend/src/components/GameBoard.jsx:274-292 | drops as the game makes them (rack tiles with their id, board tiles without one) keep ids unique across rack and board and below the counter |
| `Progression.DropKeepsInv` | frontend/src/components/GameBoard.jsx:274-292 | with the corrected board drag item that carries the tile's id, drops keep ids unique and keep every board tile's id |
| `Progression.Click` | frontend/src/components/GameBoard.jsx:294-305 | the clicked cell is emptied and no other cell is; the rack is either unchanged or gains exactly the clicked tile at its end; reserve and counter are unchanged |
| `Progression.ClickKeepsInv` | frontend/src/components/GameBoard.jsx:294-305 | a click keeps ids unique across rack and board on every board; clicking a tile without an id clears its cell and leaves the rack as it was, so the tile leaves play |
| `Progression.ClickReturnsTile` | frontend/src/components/GameBoard.jsx:294-305 | clicking a tile that has an id clears its cell, appends it to the rack and keeps the tile count and the id invariant |
| `Progression.CellDrop` | frontend/src/components/BoardCell.jsx:20-31 | the cell's drop fails iff the cell has no tiles prop; with the prop and a free target it is the board's drop |
| `Progression.CellDropWithoutTilesFails` | frontend/src/components/BoardCell.jsx:10-31 | as written: with no tiles prop, dropping a rack tile on an empty board fails in the cell, although the board's drop would place it |
| `Progression.CellDropWithTiles` | frontend/src/components/GameBoard.jsx:345-356 | given the current board as its tiles prop, the cell's drop is exactly the board's drop |
| `Progression.MovedTileVanishesOnClick` | frontend/src/components/BoardCell.jsx:66-73 | as written: a rack tile dropped, moved on the board and clicked is gone from both the board and the rack |
| `Progression.MovedTileReturnsOnClick` | frontend/src/components/Tile.jsx:41-49 | when a board tile's drag item carries its id, move then click returns it to the end of the rack and keeps the count |
| `Game.Game.constructor` | frontend/src/App.jsx:77-87 | the game starts with a 76-tile pool (the shuffled table's first 76 letters), its first 21 tiles on the rack, the other 55 in the reserve, an empty board, the counter at the last id, and unique ids |
| `Game.Game.OnTilePlacedFromRack` | frontend/src/App.jsx:228-234 | the rack becomes the rack filtered by id; nothing else changes |
| `Game.Game.OnTileReturnToRack` | frontend/src/App.jsx:235-263 | the rack becomes ReturnToRack of the old rack; the in-progress id set is empty again afterwards; board, reserve and counter are unchanged |
| `Game.Game.HandleDrop` | frontend/src/components/GameBoard.jsx:274-292 | the new state is Drop of the old state at (x, y) |
| `Game.Game.HandleClickEvent` | frontend/src/components/GameBoard.jsx:294-305 | the new state is Click of the old state at (x, y) |
| `Game.Game.HandleBoogie` | frontend/src/App.jsx:110-135 | the new state is Boogie of the old state |
| `Game.Game.OnBoardTileSpun` | frontend/src/App.jsx:149-155 | the spun tile's cell is cleared; nothing else changes |
| `Game.Game.HandleSpin` | frontend/src/App.jsx:157-187 | the spin is refused iff the reserve has fewer than three tiles; the new state is Spin of the old state |

## Left out

- Rendering, animations, sounds, overlays, the countdown, the landing page, the tile-size computation and the backend server are not modelled: they do not touch the game state.
- The word-list fetch is I/O. The model takes its result as a parameter (`None` before it arrives), and a failed fetch is the same as one that never arrives.
- `Math.random` is a parameter: the swap sequence.
- React batches state updates and runs them later. The model applies each handler's updates in source order, and takes the ref copy of the reserve to equal the reserve.
- The Boogie and win triggers passed to the board are never called by the board code, so nothing models them.
- `Dictionary.LowerChar`: lower-cases only 'A' to 'Z', because tiles only carry those letters; JavaScript's full Unicode lower-casing is not modelled.
- `WordValidation.ValidateWords`: a stored tile with an empty letter would count as an empty cell in the source. The model treats every stored tile as a letter, because tile letters are never empty.
- Drops are taken to reach the board's drop handler. As the board renders its cells, they get no tiles prop, so a cell's own occupancy test fails before the board sees the drop (see Findings). Every drop lemma and `Game.Game.HandleDrop` describe the behaviour with that prop supplied.
- `Progression.Drop`: the stored tile keeps the id, letter and new flag (false). It drops the record's x, y, origin and rackIndex fields, which only the cell key and rendering use.
- `Game.Game.HandleSpin`: the alert shown on refusal and the shake-up effect are not modelled; the refusal is the result `false`.
- `Game.Game.OnTileReturnToRack`: the duplicate-id guard is modelled, but it can never fire. Without concurrency the id set is empty between handlers.

## Findings

| source | as written | input that shows it | evidently intended | confidence | as-written member | corrected member |
|---|---|---|---|---|---|---|
| frontend/src/components/BoardCell.jsx:66-73 | a board cell renders its tile without the id, so dragging a placed tile stores it without an id; clicking it later clears the cell, but the return to the rack refuses an id-less tile | rack tile A with id 1: drop it on (0,0), drag it to (1,0), click (1,0); the tile is on neither the board nor the rack | the tile goes back to the rack, as for a tile placed directly from the rack | medium: assumes drops reach the board's drop handler, which the row below shows they do not as written; not executed | `Progression.MovedTileVanishesOnClick` | `Progression.MovedTileReturnsOnClick` |
| frontend/src/components/GameBoard.jsx:345-356 | the board renders each cell without the tiles prop, while the cell's drop test looks the target up in that prop (BoardCell.jsx:12, 20-31), so the lookup reads from an undefined value before the board's drop handler is called | drop a rack tile on any empty cell of an empty board: the lookup fails and the tile stays on the rack | each cell receives the current board as its tiles prop, and its occupancy test agrees with the board's | medium: the lookup on an undefined value fails in JavaScript; how the drag-and-drop library reports that failure is not modelled; not executed | `Progression.CellDropWithoutTilesFails` | `Progression.CellDropWithTiles` |
