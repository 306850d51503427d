/** The saved game of the object-oriented engine (`saveGameProgress` and
    `restoreGameProgress` of oopJS/script.js and src/script.ts): one record
    per cell with its coordinates and settled value (or `null`), then one
    record with the score. Storage and JSON encoding are left out; the
    snapshot is the decoded list of records. */
module Snapshot {
  import opened Wrappers
  import opened Scores
  import opened Cells
  import opened Slide
  import opened Grids

  datatype Entry = CellEntry(x: int, y: int, value: Option<nat>) | ScoreEntry(score: int)

  /** `saveGameProgress()`. */
  function Save(cells: seq<Cell>, s: Score): (snap: seq<Entry>)
    ensures |snap| == |cells| + 1
    ensures snap[|cells|] == ScoreEntry(s.points)
    ensures forall i | 0 <= i < |cells| ::
      snap[i] == CellEntry(cells[i].x, cells[i].y, ValueOf(cells[i].linkedTile))
  {
    seq(|cells|, i requires 0 <= i < |cells| =>
      CellEntry(cells[i].x, cells[i].y, ValueOf(cells[i].linkedTile))) + [ScoreEntry(s.points)]
  }

  /** The `find` test `savedCell.x === cell.x && savedCell.y === cell.y`; the
      score record has no coordinates and never matches. */
  predicate AtCoordinates(e: Entry, x: int, y: int) {
    e.CellEntry? && e.x == x && e.y == y
  }

  /** `savedProgress.find(...)` from position `from` on: the index of the
      first matching record. */
  function FindFrom(snap: seq<Entry>, x: int, y: int, from: nat): (r: Option<nat>)
    requires from <= |snap|
    ensures r.Some? ==> from <= r.value < |snap| && AtCoordinates(snap[r.value], x, y)
    ensures r.Some? ==> forall j | from <= j < r.value :: !AtCoordinates(snap[j], x, y)
    ensures r.None? ==> forall j | from <= j < |snap| :: !AtCoordinates(snap[j], x, y)
    decreases |snap| - from
  {
    if from == |snap| then None
    else if AtCoordinates(snap[from], x, y) then Some(from)
    else FindFrom(snap, x, y, from + 1)
  }

  /** One step of the restore loop: `find`, `unlinkTile()`, and a new tile
      when the record has a value. */
  function RestoreCell(c: Cell, snap: seq<Entry>): Cell {
    var found := FindFrom(snap, c.x, c.y, 0);
    var c' := UnlinkTile(c);
    if found.Some? && snap[found.value].value.Some?
    then LinkTile(c', Tile(snap[found.value].value.value, c.x, c.y))
    else c'
  }

  /** A restore either ends with a score or, when the last record carries no
      score (or there is no record at all), without one: the source then
      stores `undefined` as the score or throws. */
  datatype Restored = Restored(grid: Grid, score: Score) | ScoreMissing(grid: Grid)

  /** `restoreGameProgress()` for a stored snapshot. */
  function RestoreGameProgress(g: Grid, snap: seq<Entry>): (r: Restored)
    ensures r.grid == g.(cells := r.grid.cells)
    ensures |r.grid.cells| == |g.cells|
    ensures r.Restored? <==> |snap| > 0 && snap[|snap| - 1].ScoreEntry?
    ensures r.Restored? ==> r.score.points == snap[|snap| - 1].score
    ensures forall i | 0 <= i < |g.cells| ::
      var f := FindFrom(snap, g.cells[i].x, g.cells[i].y, 0);
      && ValueOf(r.grid.cells[i].linkedTile) == (if f.Some? then snap[f.value].value else None)
      && (r.grid.cells[i].linkedTile.Some? ==> PlacedAt(r.grid.cells[i].linkedTile.value, r.grid.cells[i]))
      && r.grid.cells[i] == g.cells[i].(linkedTile := r.grid.cells[i].linkedTile)
  {
    var cleared := ClearGrid(g);
    var cells := seq(|cleared.cells|, i requires 0 <= i < |cleared.cells| =>
      RestoreCell(cleared.cells[i], snap));
    var grid := g.(cells := cells);
    if |snap| > 0 && snap[|snap| - 1].ScoreEntry?
    then Restored(grid, Score(snap[|snap| - 1].score))
    else ScoreMissing(grid)
  }

  lemma SaveMatchesOnlyItsCell(cells: seq<Cell>, s: Score, i: nat, j: nat)
    requires WellPlaced(cells) && i < |cells| && j <= |cells|
    ensures AtCoordinates(Save(cells, s)[j], cells[i].x, cells[i].y) <==> j == i
  {
    if j < |cells| {
      CoordinatesIdentifyCells(cells, i, j);
    }
  }

  /** Round trip: restoring a saved game onto a board of the same layout
      gives every cell the saved settled value, with its tile drawn at that
      cell, keeps pending slots and coordinates, and gives back the score. */
  lemma SaveRestoreRoundTrip(g: Grid, h: Grid, s: Score)
    requires Valid(g) && Valid(h)
    ensures var r := RestoreGameProgress(h, Save(g.cells, s));
      && r.Restored?
      && r.score == s
      && SettledValues(r.grid.cells) == SettledValues(g.cells)
      && SameFrame(r.grid.cells, h.cells)
      && (forall i | 0 <= i < |h.cells| ::
            && r.grid.cells[i].linkedTileForMerge == h.cells[i].linkedTileForMerge
            && (r.grid.cells[i].linkedTile.Some? ==>
                  PlacedAt(r.grid.cells[i].linkedTile.value, r.grid.cells[i])))
  {
    var snap := Save(g.cells, s);
    var r := RestoreGameProgress(h, snap);
    forall i | 0 <= i < |h.cells|
      ensures ValueOf(r.grid.cells[i].linkedTile) == ValueOf(g.cells[i].linkedTile)
    {
      var c := ClearGrid(h).cells[i];
      var found := FindFrom(snap, c.x, c.y, 0);
      forall j | 0 <= j <= |g.cells| ensures AtCoordinates(snap[j], c.x, c.y) <==> j == i {
        SaveMatchesOnlyItsCell(g.cells, s, i, j);
      }
      assert c.x == g.cells[i].x && c.y == g.cells[i].y;
      assert AtCoordinates(snap[i], c.x, c.y);
      assert found.Some?;
      assert found == Some(i);
    }
  }
}
