/** A cell of the object-oriented engine (`Cell` in src/cell.ts and its twin
    oopJS/cell.js), with the tile reduced to its value and position. */
module Cells {
  import opened Wrappers
  import opened Scores

  /** A tile: its number and the grid coordinates it is drawn at. The DOM
      element, colours and animations are left out. */
  datatype Tile = Tile(value: nat, x: int, y: int)

  /** A cell: fixed coordinates, the settled tile (`linkedTile`), the tile
      waiting to merge into it (`linkedTileForMerge`) and the value of the last
      merge it performed (`mergedScore`). */
  datatype Cell = Cell(
    x: int,
    y: int,
    linkedTile: Option<Tile>,
    linkedTileForMerge: Option<Tile>,
    mergedScore: int)

  /** The tile is drawn at the cell's coordinates. */
  predicate PlacedAt(t: Tile, c: Cell) {
    t.x == c.x && t.y == c.y
  }

  /** Every tile a cell holds is drawn at that cell. */
  predicate TilesPlaced(c: Cell) {
    && (c.linkedTile.Some? ==> PlacedAt(c.linkedTile.value, c))
    && (c.linkedTileForMerge.Some? ==> PlacedAt(c.linkedTileForMerge.value, c))
  }

  /** A pending tile only ever sits on a settled tile of the same value. */
  predicate Coherent(c: Cell) {
    c.linkedTileForMerge.Some? ==>
      c.linkedTile.Some? && c.linkedTile.value.value == c.linkedTileForMerge.value.value
  }

  /** The cell constructor: both slots unset (in the JavaScript twin they
      stay `undefined`, which every test reads as empty). */
  function NewCell(x: int, y: int): (c: Cell)
    ensures c.x == x && c.y == y
    ensures IsEmpty(c) && !HasTileForMerge(c) && c.mergedScore == 0
  {
    Cell(x, y, None, None, 0)
  }

  /** `linkTile(tile)`: moves the tile to the cell's coordinates and settles it. */
  function LinkTile(c: Cell, t: Tile): (r: Cell)
    ensures r.linkedTile.Some? && r.linkedTile.value.value == t.value
    ensures PlacedAt(r.linkedTile.value, r)
    ensures r == c.(linkedTile := r.linkedTile)
  {
    c.(linkedTile := Some(t.(x := c.x, y := c.y)))
  }

  /** `unlinkTile()`: forgets the settled tile only. */
  function UnlinkTile(c: Cell): (r: Cell)
    ensures IsEmpty(r)
    ensures r == c.(linkedTile := None)
  {
    c.(linkedTile := None)
  }

  /** `removeLinkedTile()`: in the model it is `unlinkTile()` guarded by a
      test, since removing the tile's element from the page is left out. */
  function RemoveLinkedTile(c: Cell): (r: Cell)
    ensures r == UnlinkTile(c)
    ensures IsEmpty(c) ==> r == c
  {
    if c.linkedTile.Some? then c.(linkedTile := None) else c
  }

  /** `isEmpty()`: no settled tile. */
  predicate IsEmpty(c: Cell) {
    c.linkedTile.None?
  }

  /** `linkTileForMerge(tile)`: moves the tile to the cell and parks it as
      the pending merge. */
  function LinkTileForMerge(c: Cell, t: Tile): (r: Cell)
    ensures r.linkedTileForMerge.Some? && r.linkedTileForMerge.value.value == t.value
    ensures PlacedAt(r.linkedTileForMerge.value, r)
    ensures r == c.(linkedTileForMerge := r.linkedTileForMerge)
  {
    c.(linkedTileForMerge := Some(t.(x := c.x, y := c.y)))
  }

  /** `unlinkTileForMerge()`: forgets the pending tile only. */
  function UnlinkTileForMerge(c: Cell): (r: Cell)
    ensures !HasTileForMerge(r)
    ensures r == c.(linkedTileForMerge := None)
  {
    c.(linkedTileForMerge := None)
  }

  /** `hasTileForMerge()`. */
  predicate HasTileForMerge(c: Cell) {
    c.linkedTileForMerge.Some?
  }

  /** `canAccept(tile)`: the single acceptance rule of the engine. */
  predicate CanAccept(c: Cell, t: Tile) {
    IsEmpty(c) || (!HasTileForMerge(c) && c.linkedTile.value.value == t.value)
  }

  /** Linking a tile into an empty cell and unlinking it again gives the cell
      back unchanged; linking a tile for merge and unlinking it gives the
      cell back with its pending slot cleared. */
  lemma LinkUnlinkRoundTrip(c: Cell, t: Tile)
    requires IsEmpty(c)
    ensures UnlinkTile(LinkTile(c, t)) == c
    ensures UnlinkTileForMerge(LinkTileForMerge(c, t)) == c.(linkedTileForMerge := None)
  {
  }

  /** What the cell and the counter become after `mergeTiles()`. */
  datatype Merged = Merged(cell: Cell, score: Score)

  /** `mergeTiles()`: the settled tile takes the sum of both values, the
      pending tile is dropped, and a positive sum is added to the score. */
  function MergeTiles(c: Cell, s: Score): (r: Merged)
    requires c.linkedTile.Some? && c.linkedTileForMerge.Some?
    ensures r.cell.linkedTile.Some?
    ensures r.cell.linkedTile.value.value
         == c.linkedTile.value.value + c.linkedTileForMerge.value.value
    ensures !HasTileForMerge(r.cell)
    ensures r.cell.x == c.x && r.cell.y == c.y
    ensures r.cell.linkedTile.value.x == c.linkedTile.value.x
    ensures r.cell.linkedTile.value.y == c.linkedTile.value.y
    ensures r.cell.mergedScore == r.cell.linkedTile.value.value
    ensures r.score.points - s.points
         == (if r.cell.mergedScore > 0 then r.cell.mergedScore else 0)
  {
    var mergedValue := c.linkedTile.value.value + c.linkedTileForMerge.value.value;
    var settled := c.linkedTile.value.(value := mergedValue);
    var cell := UnlinkTileForMerge(c.(linkedTile := Some(settled), mergedScore := mergedValue));
    Merged(cell, if cell.mergedScore > 0 then AddScore(s, cell.mergedScore) else s)
  }

  /** On a coherent cell a merge doubles the settled value and adds the
      doubled value to the score. */
  lemma MergeDoubles(c: Cell, s: Score)
    requires Coherent(c) && HasTileForMerge(c) && c.linkedTile.value.value > 0
    ensures MergeTiles(c, s).cell.linkedTile.value.value == 2 * c.linkedTile.value.value
    ensures MergeTiles(c, s).score.points == s.points + 2 * c.linkedTile.value.value
    ensures Coherent(MergeTiles(c, s).cell)
    ensures TilesPlaced(c) ==> TilesPlaced(MergeTiles(c, s).cell)
  {
  }
}
