/** The procedural engine of oopJS/index.js: a flat array of sixteen plain
    cell records, tiles that walk one cell at a time, merges that are not
    guarded against merging twice, and legality checks written
    independently of the moves. */
module Procedural {
  import opened Wrappers
  import opened Chance
  import opened Grids
  import Snapshot

  /** `maxAttempts` and `initialTilesCount`. */
  const MaxAttempts: nat := 10
  const InitialTilesCount: nat := 2

  /** `{x, y, element, linkedTile, linkedTileForMerge}` with the tile reduced
      to its value; nothing in this engine ever sets `linkedTileForMerge`. */
  datatype PCell = PCell(x: int, y: int, linkedTile: Option<nat>, linkedTileForMerge: Option<nat>)

  /** The `cells` array and the global `score`. */
  datatype Board = Board(cells: seq<PCell>, score: int)

  predicate InBorders(x: int, y: int) {
    0 <= x < GridSize && 0 <= y < GridSize
  }

  /** Cell `i` sits at `x = i % gridSize`, `y = Math.floor(i / gridSize)`. */
  predicate WellFormed(cells: seq<PCell>) {
    && |cells| == CellsCount
    && forall i | 0 <= i < CellsCount :: cells[i].x == i % GridSize && cells[i].y == i / GridSize
  }

  /** Sixteen cells, whatever their coordinates: all a walk needs. */
  predicate Sized(cells: seq<PCell>) {
    |cells| == CellsCount
  }

  /** Every cell keeps its coordinates. */
  predicate SamePlaces(a: seq<PCell>, b: seq<PCell>) {
    Places(a) == Places(b)
  }

  /** The coordinates of each cell, in board order. */
  function Places(cells: seq<PCell>): (ps: seq<(int, int)>)
    ensures |ps| == |cells| && forall i | 0 <= i < |cells| :: ps[i] == (cells[i].x, cells[i].y)
  {
    seq(|cells|, i requires 0 <= i < |cells| => (cells[i].x, cells[i].y))
  }

  /** Same cells apart from where the tiles are. */
  predicate SameFrame(a: seq<PCell>, b: seq<PCell>) {
    && |a| == |b|
    && forall i | 0 <= i < |a| ::
         a[i].x == b[i].x && a[i].y == b[i].y && a[i].linkedTileForMerge == b[i].linkedTileForMerge
  }

  predicate Unmarked(cells: seq<PCell>) {
    forall i | 0 <= i < |cells| :: cells[i].linkedTileForMerge.None?
  }

  lemma IndexBound(x: int, y: int)
    requires InBorders(x, y)
    ensures 0 <= IndexOf(x, y) < CellsCount
  {
    IndexCoordinates(x, y);
  }

  lemma IndexInBorders(x: int, y: int)
    requires InBorders(x, y)
    ensures 0 <= IndexOf(x, y) < CellsCount
    ensures IndexOf(x, y) % GridSize == x && IndexOf(x, y) / GridSize == y
  {
    IndexCoordinates(x, y);
  }

  /** `createGrid`: sixteen empty cells, each found again at
      `cells[x + y * gridSize]` from its own coordinates. */
  function CreateGrid(): (cells: seq<PCell>)
    ensures WellFormed(cells) && Unmarked(cells)
    ensures forall i | 0 <= i < CellsCount ::
      && InBorders(cells[i].x, cells[i].y)
      && IndexOf(cells[i].x, cells[i].y) == i
      && cells[i].linkedTile.None?
  {
    seq(CellsCount, i requires 0 <= i < CellsCount => PCell(i % GridSize, i / GridSize, None, None))
  }

  // ---------------------------------------------------------------------
  // Moving

  function ValueAt(c: PCell): nat {
    if c.linkedTile.Some? then c.linkedTile.value else 0
  }

  predicate HasNoLinkedTile(c: PCell) {
    c.linkedTile.None?
  }

  /** `isTilesMerge(target, current)`. */
  predicate IsTilesMerge(target: PCell, current: PCell) {
    && target.linkedTile.Some?
    && current.linkedTile.Some?
    && target.linkedTile.value == current.linkedTile.value
    && target.linkedTileForMerge.None?
  }

  /** The four offsets each direction hands on, in the order the source
      writes them: `moveTileInDirection` reads them as `(dirY, dirX)`,
      `isTilesMoveInDirection` as `(dirX, dirY)`. */
  function Offsets(d: Direction): (int, int) {
    match d
    case Up => (-1, 0)
    case Down => (1, 0)
    case Left => (0, -1)
    case Right => (0, 1)
  }

  /** One step along an axis. */
  predicate Unit(dirY: int, dirX: int) {
    || (dirY == 0 && (dirX == 1 || dirX == -1))
    || (dirX == 0 && (dirY == 1 || dirY == -1))
  }

  /** Steps left from `(x, y)` to the border the walk heads for. */
  function Remaining(x: int, y: int, dirY: int, dirX: int): int {
    (if dirX < 0 then x else if dirX > 0 then GridSize - 1 - x else 0)
    + (if dirY < 0 then y else if dirY > 0 then GridSize - 1 - y else 0)
  }

  /** `moveTile(current, target)`: the tile changes cells. */
  function MoveTile(cells: seq<PCell>, current: nat, target: nat): seq<PCell>
    requires current < |cells| && target < |cells|
  {
    cells[target := cells[target].(linkedTile := cells[current].linkedTile)]
         [current := cells[current].(linkedTile := None)]
  }

  /** `mergeTiles(target, current)`: the target takes twice the moving value,
      the moving tile disappears and the new value is added to the score.
      With `marks` the target is also flagged as merged, which is what the
      `linkedTileForMerge` test in `isTilesMerge` evidently expects. */
  function MergeTiles(b: Board, target: nat, current: nat, marks: bool): Board
    requires target < |b.cells| && current < |b.cells| && b.cells[current].linkedTile.Some?
  {
    var newValue := b.cells[current].linkedTile.value * 2;
    var t := b.cells[target].(linkedTile := Some(newValue));
    var t' := if marks then t.(linkedTileForMerge := Some(newValue)) else t;
    Board(b.cells[target := t'][current := b.cells[current].(linkedTile := None)], b.score + newValue)
  }

  /** A merge doubles the moving value into the target (flagging it only
      with `marks`), empties the moving cell, adds the doubled value to the
      score and leaves every other cell alone. */
  lemma MergeTilesEffect(b: Board, target: nat, current: nat, marks: bool)
    requires target < |b.cells| && current < |b.cells| && target != current
    requires b.cells[current].linkedTile.Some?
    ensures var r := MergeTiles(b, target, current, marks);
      var doubled := 2 * b.cells[current].linkedTile.value;
      && |r.cells| == |b.cells|
      && r.score == b.score + doubled
      && r.cells[target] == b.cells[target].(linkedTile := Some(doubled),
           linkedTileForMerge := if marks then Some(doubled) else b.cells[target].linkedTileForMerge)
      && r.cells[current] == b.cells[current].(linkedTile := None)
      && forall k | 0 <= k < |b.cells| && k != target && k != current :: r.cells[k] == b.cells[k]
  {
  }

  /** `isTilesMoveInDirection(current, x, y, dirX, dirY)`: the neighbour at
      `(x + dirX, y + dirY)` is on the board and is empty or holds an equal,
      unmerged tile. Read with the offsets a move uses, it says whether the
      tile at `(x, y)` can take its first step. */
  predicate IsTilesMoveInDirection(cells: seq<PCell>, x: int, y: int, dirX: int, dirY: int)
    requires Sized(cells) && InBorders(x, y)
  {
    var tx, ty := x + dirX, y + dirY;
    IndexInBorders(x, y);
    if InBorders(tx, ty) then
      IndexInBorders(tx, ty);
      HasNoLinkedTile(cells[IndexOf(tx, ty)]) || IsTilesMerge(cells[IndexOf(tx, ty)], cells[IndexOf(x, y)])
    else false
  }

  /** `moveTileInDirection`: the tile at `(x, y)` walks through empty cells
      until the border, a tile it merges with (then it stops), or a tile it
      cannot merge with. */
  function MoveTileInDirection(b: Board, x: int, y: int, dirY: int, dirX: int, marks: bool): (r: Board)
    requires Sized(b.cells) && InBorders(x, y) && Unit(dirY, dirX)
    requires b.cells[IndexOf(x, y)].linkedTile.Some?
    ensures Sized(r.cells)
    decreases Remaining(x, y, dirY, dirX)
  {
    var tx, ty := x + dirX, y + dirY;
    if !InBorders(tx, ty) then b
    else
      var target, current := IndexOf(tx, ty), IndexOf(x, y);
      IndexInBorders(tx, ty);
      IndexInBorders(x, y);
      if HasNoLinkedTile(b.cells[target]) then
        MoveTileInDirection(b.(cells := MoveTile(b.cells, current, target)), tx, ty, dirY, dirX, marks)
      else if IsTilesMerge(b.cells[target], b.cells[current]) then
        MergeTiles(b, target, current, marks)
      else b
  }

  /** A walk leaves every cell where it was. */
  lemma WalkKeepsPlaces(b: Board, x: int, y: int, dirY: int, dirX: int, marks: bool)
    requires Sized(b.cells) && InBorders(x, y) && Unit(dirY, dirX)
    requires b.cells[IndexOf(x, y)].linkedTile.Some?
    ensures SamePlaces(MoveTileInDirection(b, x, y, dirY, dirX, marks).cells, b.cells)
  {
    var r := MoveTileInDirection(b, x, y, dirY, dirX, marks);
    var l := Landing(b.cells, x, y, dirY, dirX);
    WalkLands(b, x, y, dirY, dirX, marks);
    if MergesAhead(b, x, y, dirY, dirX) {
      MergedKeepsFrame(b, r, x, y, l.0, l.1, dirY, dirX, marks);
    } else {
      LandedKeepsFrame(b, r, x, y, l.0, l.1);
    }
  }

  /** Landing a tile moves no cell and flags none. */
  lemma LandedKeepsFrame(b: Board, r: Board, x: int, y: int, lx: int, ly: int)
    requires Sized(b.cells) && InBorders(x, y) && InBorders(lx, ly)
    requires LandedAt(b, r, x, y, lx, ly)
    ensures SamePlaces(r.cells, b.cells)
    ensures Unmarked(b.cells) ==> Unmarked(r.cells)
  {
    assert Places(r.cells) == Places(b.cells);
  }

  /** A merge moves no cell, and flags none without `marks`. */
  lemma MergedKeepsFrame(b: Board, r: Board, x: int, y: int, lx: int, ly: int, dirY: int, dirX: int, marks: bool)
    requires Sized(b.cells) && InBorders(x, y) && InBorders(lx + dirX, ly + dirY)
    requires b.cells[Spot(x, y)].linkedTile.Some?
    requires MergedAt(b, r, x, y, lx, ly, dirY, dirX, marks)
    ensures SamePlaces(r.cells, b.cells)
    ensures !marks && Unmarked(b.cells) ==> Unmarked(r.cells)
  {
    assert Places(r.cells) == Places(b.cells);
  }

  /** Cells in the places of a well-formed board form a well-formed board. */
  lemma SamePlacesWellFormed(a: seq<PCell>, b: seq<PCell>)
    requires WellFormed(b) && SamePlaces(a, b)
    ensures WellFormed(a)
  {
    forall i | 0 <= i < CellsCount
      ensures a[i].x == i % GridSize && a[i].y == i / GridSize
    {
      assert Places(a)[i] == Places(b)[i];
    }
  }

  /** A walk on a well-formed board leaves it well-formed. */
  lemma WalkKeepsForm(b: Board, x: int, y: int, dirY: int, dirX: int, marks: bool)
    requires WellFormed(b.cells) && InBorders(x, y) && Unit(dirY, dirX)
    requires b.cells[IndexOf(x, y)].linkedTile.Some?
    ensures WellFormed(MoveTileInDirection(b, x, y, dirY, dirX, marks).cells)
  {
    WalkKeepsPlaces(b, x, y, dirY, dirX, marks);
    SamePlacesWellFormed(MoveTileInDirection(b, x, y, dirY, dirX, marks).cells, b.cells);
  }

  /** Without `marks` a walk flags no cell as merged. */
  lemma WalkKeepsUnmarked(b: Board, x: int, y: int, dirY: int, dirX: int, marks: bool)
    requires Sized(b.cells) && InBorders(x, y) && Unit(dirY, dirX)
    requires b.cells[IndexOf(x, y)].linkedTile.Some?
    ensures !marks && Unmarked(b.cells) ==> Unmarked(MoveTileInDirection(b, x, y, dirY, dirX, marks).cells)
  {
    var r := MoveTileInDirection(b, x, y, dirY, dirX, marks);
    var l := Landing(b.cells, x, y, dirY, dirX);
    WalkLands(b, x, y, dirY, dirX, marks);
    if MergesAhead(b, x, y, dirY, dirX) {
      MergedKeepsFrame(b, r, x, y, l.0, l.1, dirY, dirX, marks);
    } else {
      LandedKeepsFrame(b, r, x, y, l.0, l.1);
    }
  }

  /** A walk whose first step is closed changes nothing. */
  lemma StuckWalk(b: Board, x: int, y: int, dirY: int, dirX: int, marks: bool)
    requires Sized(b.cells) && InBorders(x, y) && Unit(dirY, dirX)
    requires b.cells[IndexOf(x, y)].linkedTile.Some?
    requires !IsTilesMoveInDirection(b.cells, x, y, dirX, dirY)
    ensures MoveTileInDirection(b, x, y, dirY, dirX, marks) == b
  {
    IndexBound(x, y);
  }

  // ---------------------------------------------------------------------
  // Where a walk ends

  /** The last cell of the run of empty cells straight ahead of `(x, y)`, or
      `(x, y)` itself when the next cell is off the board or taken. */
  function Landing(cells: seq<PCell>, x: int, y: int, dirY: int, dirX: int): (l: (int, int))
    requires Sized(cells) && InBorders(x, y) && Unit(dirY, dirX)
    ensures InBorders(l.0, l.1)
    ensures Remaining(l.0, l.1, dirY, dirX) <= Remaining(x, y, dirY, dirX)
    decreases Remaining(x, y, dirY, dirX)
  {
    if InBorders(x + dirX, y + dirY) then
      IndexBound(x + dirX, y + dirY);
      StepRemaining(x, y, dirY, dirX);
      if cells[IndexOf(x + dirX, y + dirY)].linkedTile.None?
      then Landing(cells, x + dirX, y + dirY, dirY, dirX)
      else (x, y)
    else (x, y)
  }

  /** A cell on the ray from `(x, y)` in direction `(dirY, dirX)`, at most
      `Remaining(x, y, dirY, dirX)` steps away. */
  predicate OnRay(x: int, y: int, dirY: int, dirX: int, px: int, py: int) {
    && (dirX == 0 ==> px == x)
    && (dirY == 0 ==> py == y)
    && Remaining(px, py, dirY, dirX) <= Remaining(x, y, dirY, dirX)
  }

  /** The landing cell lies on the ray; every cell of the ray past `(x, y)`
      and up to the landing cell is empty; the cell after the landing cell
      is off the board or holds a tile. */
  lemma LandingIsLastEmpty(cells: seq<PCell>, x: int, y: int, dirY: int, dirX: int)
    requires Sized(cells) && InBorders(x, y) && Unit(dirY, dirX)
    ensures var l := Landing(cells, x, y, dirY, dirX);
      && OnRay(x, y, dirY, dirX, l.0, l.1)
      && (forall px, py | InBorders(px, py) && OnRay(x, y, dirY, dirX, px, py)
                          && Remaining(l.0, l.1, dirY, dirX) <= Remaining(px, py, dirY, dirX) < Remaining(x, y, dirY, dirX) ::
            cells[IndexOf(px, py)].linkedTile.None?)
      && Blocked(cells, l.0, l.1, dirY, dirX)
  {
    var l := Landing(cells, x, y, dirY, dirX);
    LandingOnRay(cells, x, y, dirY, dirX);
    LandingStops(cells, x, y, dirY, dirX);
    forall px, py | InBorders(px, py) && OnRay(x, y, dirY, dirX, px, py)
                    && Remaining(l.0, l.1, dirY, dirX) <= Remaining(px, py, dirY, dirX) < Remaining(x, y, dirY, dirX)
      ensures cells[IndexOf(px, py)].linkedTile.None?
    {
      RunCellEmpty(cells, x, y, dirY, dirX, px, py);
    }
  }

  lemma {:induction false} LandingOnRay(cells: seq<PCell>, x: int, y: int, dirY: int, dirX: int)
    requires Sized(cells) && InBorders(x, y) && Unit(dirY, dirX)
    ensures var l := Landing(cells, x, y, dirY, dirX); OnRay(x, y, dirY, dirX, l.0, l.1)
    decreases Remaining(x, y, dirY, dirX)
  {
    if InBorders(x + dirX, y + dirY) {
      IndexBound(x + dirX, y + dirY);
      StepRemaining(x, y, dirY, dirX);
      if cells[IndexOf(x + dirX, y + dirY)].linkedTile.None? {
        LandingOnRay(cells, x + dirX, y + dirY, dirY, dirX);
      }
    }
  }

  /** The cell after `(x, y)` is off the board or holds a tile. */
  predicate Blocked(cells: seq<PCell>, x: int, y: int, dirY: int, dirX: int)
    requires Sized(cells)
  {
    if InBorders(x + dirX, y + dirY) then
      IndexBound(x + dirX, y + dirY);
      cells[IndexOf(x + dirX, y + dirY)].linkedTile.Some?
    else true
  }

  lemma {:induction false} LandingStops(cells: seq<PCell>, x: int, y: int, dirY: int, dirX: int)
    requires Sized(cells) && InBorders(x, y) && Unit(dirY, dirX)
    ensures var l := Landing(cells, x, y, dirY, dirX); Blocked(cells, l.0, l.1, dirY, dirX)
    decreases Remaining(x, y, dirY, dirX)
  {
    var l := Landing(cells, x, y, dirY, dirX);
    if InBorders(x + dirX, y + dirY) {
      IndexBound(x + dirX, y + dirY);
      StepRemaining(x, y, dirY, dirX);
      if cells[IndexOf(x + dirX, y + dirY)].linkedTile.None? {
        LandingStops(cells, x + dirX, y + dirY, dirY, dirX);
        assert l == Landing(cells, x + dirX, y + dirY, dirY, dirX);
      } else {
        assert l == (x, y);
      }
    } else {
      assert l == (x, y);
    }
  }

  lemma {:induction false} RunCellEmpty(cells: seq<PCell>, x: int, y: int, dirY: int, dirX: int, px: int, py: int)
    requires Sized(cells) && InBorders(x, y) && Unit(dirY, dirX)
    requires InBorders(px, py) && OnRay(x, y, dirY, dirX, px, py)
    requires var l := Landing(cells, x, y, dirY, dirX);
      Remaining(l.0, l.1, dirY, dirX) <= Remaining(px, py, dirY, dirX) < Remaining(x, y, dirY, dirX)
    ensures cells[IndexOf(px, py)].linkedTile.None?
    decreases Remaining(x, y, dirY, dirX)
  {
    IndexBound(px, py);
    if InBorders(x + dirX, y + dirY) {
      IndexBound(x + dirX, y + dirY);
      StepRemaining(x, y, dirY, dirX);
      if cells[IndexOf(x + dirX, y + dirY)].linkedTile.None? {
        if Remaining(px, py, dirY, dirX) < Remaining(x + dirX, y + dirY, dirY, dirX) {
          RayStep(x, y, dirY, dirX, px, py);
          RunCellEmpty(cells, x + dirX, y + dirY, dirY, dirX, px, py);
        } else {
          assert px == x + dirX && py == y + dirY;
        }
      }
    }
  }

  /** A cell of the ray past `(x, y)` is the next cell or on the ray from the
      next cell. */
  lemma RayStep(x: int, y: int, dirY: int, dirX: int, px: int, py: int)
    requires InBorders(x, y) && Unit(dirY, dirX) && InBorders(x + dirX, y + dirY)
    requires InBorders(px, py) && OnRay(x, y, dirY, dirX, px, py)
    requires Remaining(px, py, dirY, dirX) < Remaining(x, y, dirY, dirX)
    ensures OnRay(x + dirX, y + dirY, dirY, dirX, px, py)
  {
  }

  /** Changing a cell no closer to the border than `(x, y)` does not move
      the landing cell. */
  lemma {:induction false} LandingAfterUpdate(cells: seq<PCell>, k: nat, c: PCell, x: int, y: int, dirY: int, dirX: int)
    requires Sized(cells) && InBorders(x, y) && Unit(dirY, dirX) && k < CellsCount
    requires Remaining(k % GridSize, k / GridSize, dirY, dirX) >= Remaining(x, y, dirY, dirX)
    ensures Landing(cells[k := c], x, y, dirY, dirX) == Landing(cells, x, y, dirY, dirX)
    decreases Remaining(x, y, dirY, dirX)
  {
    if InBorders(x + dirX, y + dirY) {
      IndexInBorders(x + dirX, y + dirY);
      StepRemaining(x, y, dirY, dirX);
      assert IndexOf(x + dirX, y + dirY) != k;
      LandingAfterUpdate(cells, k, c, x + dirX, y + dirY, dirY, dirX);
    }
  }

  /** The walk in closed form: the tile jumps straight to its landing cell
      and then settles there. */
  function Jump(b: Board, x: int, y: int, dirY: int, dirX: int, marks: bool): (r: Board)
    requires Sized(b.cells) && InBorders(x, y) && Unit(dirY, dirX)
    requires b.cells[IndexOf(x, y)].linkedTile.Some?
  {
    var l := Landing(b.cells, x, y, dirY, dirX);
    JumpTo(b, x, y, l.0, l.1, dirY, dirX, marks)
  }

  /** The tile of `(x, y)` carried to `(lx, ly)`, where it settles. */
  function JumpTo(b: Board, x: int, y: int, lx: int, ly: int, dirY: int, dirX: int, marks: bool): Board
    requires Sized(b.cells) && InBorders(x, y) && InBorders(lx, ly)
  {
    Settle(Board(Carry(b.cells, Spot(x, y), Spot(lx, ly)), b.score), lx, ly, dirY, dirX, marks)
  }

  /** The tile of cell `start` carried to cell `land` in one move. */
  function Carry(cells: seq<PCell>, start: nat, land: nat): (r: seq<PCell>)
    requires start < |cells| && land < |cells|
    ensures |r| == |cells|
    ensures r[land] == cells[land].(linkedTile := cells[start].linkedTile)
    ensures land != start ==> r[start] == cells[start].(linkedTile := None)
    ensures forall k | 0 <= k < |cells| && k != start && k != land :: r[k] == cells[k]
  {
    if land == start then cells else MoveTile(cells, start, land)
  }

  /** The tile standing at `(x, y)` merges into the next cell ahead when
      `isTilesMerge` allows, and otherwise stays. */
  function Settle(b: Board, x: int, y: int, dirY: int, dirX: int, marks: bool): Board
    requires Sized(b.cells) && InBorders(x, y)
  {
    IndexBound(x, y);
    if !InBorders(x + dirX, y + dirY) then b
    else
      IndexBound(x + dirX, y + dirY);
      var here, next := IndexOf(x, y), IndexOf(x + dirX, y + dirY);
      if IsTilesMerge(b.cells[next], b.cells[here]) then MergeTiles(b, next, here, marks) else b
  }

  /** `x + y * gridSize` for a cell on the board, with its bound. */
  function Spot(x: int, y: int): (i: nat)
    requires InBorders(x, y)
    ensures i < CellsCount && i == IndexOf(x, y)
  {
    IndexBound(x, y);
    IndexOf(x, y)
  }

  /** The tile of `(x, y)`, standing at `(lx, ly)`, faces a tile it merges
      with. */
  predicate MergesAt(cells: seq<PCell>, x: int, y: int, lx: int, ly: int, dirY: int, dirX: int)
    requires Sized(cells) && InBorders(x, y)
  {
    InBorders(lx + dirX, ly + dirY) && IsTilesMerge(cells[Spot(lx + dirX, ly + dirY)], cells[Spot(x, y)])
  }

  /** The tile from `(x, y)`, once at its landing cell, meets a tile it
      merges with. */
  predicate MergesAhead(b: Board, x: int, y: int, dirY: int, dirX: int)
    requires Sized(b.cells) && InBorders(x, y) && Unit(dirY, dirX)
  {
    var l := Landing(b.cells, x, y, dirY, dirX);
    MergesAt(b.cells, x, y, l.0, l.1, dirY, dirX)
  }

  /** `r` is `b` with the tile of `(x, y)` moved to `(lx, ly)`: the score
      kept, the first cell emptied, no other cell changed. */
  predicate LandedAt(b: Board, r: Board, x: int, y: int, lx: int, ly: int)
    requires Sized(b.cells) && InBorders(x, y) && InBorders(lx, ly)
  {
    var start, land := Spot(x, y), Spot(lx, ly);
    && |r.cells| == CellsCount
    && r.score == b.score
    && r.cells[land] == b.cells[land].(linkedTile := b.cells[start].linkedTile)
    && (land != start ==> r.cells[start] == b.cells[start].(linkedTile := None))
    && forall k | 0 <= k < CellsCount && k != start && k != land :: r.cells[k] == b.cells[k]
  }

  /** `r` is `b` with the tile of `(x, y)` merged into the tile after
      `(lx, ly)`: that tile doubled (and flagged as merged only with
      `marks`), the doubled value added to the score, the first cell
      emptied, no other cell changed. */
  predicate MergedAt(b: Board, r: Board, x: int, y: int, lx: int, ly: int, dirY: int, dirX: int, marks: bool)
    requires Sized(b.cells) && InBorders(x, y) && InBorders(lx + dirX, ly + dirY)
    requires b.cells[Spot(x, y)].linkedTile.Some?
  {
    var start, next := Spot(x, y), Spot(lx + dirX, ly + dirY);
    var doubled := 2 * b.cells[start].linkedTile.value;
    && |r.cells| == CellsCount
    && r.score == b.score + doubled
    && r.cells[next] == b.cells[next].(linkedTile := Some(doubled),
         linkedTileForMerge := if marks then Some(doubled) else b.cells[next].linkedTileForMerge)
    && r.cells[start] == b.cells[start].(linkedTile := None)
    && forall k | 0 <= k < CellsCount && k != start && k != next :: r.cells[k] == b.cells[k]
  }

  /** `r` is `b` with the tile of `(x, y)` moved to its landing cell. */
  predicate Landed(b: Board, r: Board, x: int, y: int, dirY: int, dirX: int)
    requires Sized(b.cells) && InBorders(x, y) && Unit(dirY, dirX)
  {
    var l := Landing(b.cells, x, y, dirY, dirX);
    LandedAt(b, r, x, y, l.0, l.1)
  }

  /** `r` is `b` with the tile of `(x, y)` merged into the tile after its
      landing cell. */
  predicate MergedAhead(b: Board, r: Board, x: int, y: int, dirY: int, dirX: int, marks: bool)
    requires Sized(b.cells) && InBorders(x, y) && Unit(dirY, dirX)
    requires b.cells[Spot(x, y)].linkedTile.Some?
    requires MergesAhead(b, x, y, dirY, dirX)
  {
    var l := Landing(b.cells, x, y, dirY, dirX);
    MergedAt(b, r, x, y, l.0, l.1, dirY, dirX, marks)
  }

  /** `r` is where the walk of the tile from `(x, y)` ends when it stops
      at `(lx, ly)`: merged into the tile ahead when `isTilesMerge` allows,
      landed there otherwise. */
  predicate EndsAt(b: Board, r: Board, x: int, y: int, lx: int, ly: int, dirY: int, dirX: int, marks: bool)
    requires Sized(b.cells) && InBorders(x, y) && InBorders(lx, ly)
    requires b.cells[Spot(x, y)].linkedTile.Some?
  {
    if MergesAt(b.cells, x, y, lx, ly, dirY, dirX) then MergedAt(b, r, x, y, lx, ly, dirY, dirX, marks)
    else LandedAt(b, r, x, y, lx, ly)
  }

  /** `r` is where the walk of the tile from `(x, y)` ends. */
  predicate Ends(b: Board, r: Board, x: int, y: int, dirY: int, dirX: int, marks: bool)
    requires Sized(b.cells) && InBorders(x, y) && Unit(dirY, dirX)
    requires b.cells[Spot(x, y)].linkedTile.Some?
  {
    var l := Landing(b.cells, x, y, dirY, dirX);
    EndsAt(b, r, x, y, l.0, l.1, dirY, dirX, marks)
  }

  /** A walk either lands its tile or merges it into the tile ahead,
      whichever `isTilesMerge` decides at the landing cell. */
  lemma WalkLands(b: Board, x: int, y: int, dirY: int, dirX: int, marks: bool)
    requires Sized(b.cells) && InBorders(x, y) && Unit(dirY, dirX)
    requires b.cells[IndexOf(x, y)].linkedTile.Some?
    ensures !MergesAhead(b, x, y, dirY, dirX) ==>
      Landed(b, MoveTileInDirection(b, x, y, dirY, dirX, marks), x, y, dirY, dirX)
    ensures MergesAhead(b, x, y, dirY, dirX) ==>
      MergedAhead(b, MoveTileInDirection(b, x, y, dirY, dirX, marks), x, y, dirY, dirX, marks)
  {
    var l := Landing(b.cells, x, y, dirY, dirX);
    WalkEnds(b, x, y, dirY, dirX, marks, l.0, l.1);
  }

  lemma {:induction false} WalkEnds(b: Board, x: int, y: int, dirY: int, dirX: int, marks: bool, lx: int, ly: int)
    requires Sized(b.cells) && InBorders(x, y) && Unit(dirY, dirX)
    requires b.cells[Spot(x, y)].linkedTile.Some?
    requires (lx, ly) == Landing(b.cells, x, y, dirY, dirX)
    ensures InBorders(lx, ly)
    ensures EndsAt(b, MoveTileInDirection(b, x, y, dirY, dirX, marks), x, y, lx, ly, dirY, dirX, marks)
    decreases Remaining(x, y, dirY, dirX), 1
  {
    IndexInBorders(x, y);
    if InBorders(x + dirX, y + dirY) {
      IndexInBorders(x + dirX, y + dirY);
      if b.cells[IndexOf(x + dirX, y + dirY)].linkedTile.None? {
        var b1 := StepAhead(b, x, y, dirY, dirX, marks);
        EndsOnward(b, x, y, dirY, dirX, marks, b1, lx, ly);
        return;
      }
    }
    JumpInPlace(b, x, y, dirY, dirX, marks);
    JumpSettles(b, x, y, dirY, dirX, marks);
  }

  /** `moveTileInDirection`, which walks one cell at a time, is the jump. */
  lemma WalkIsJump(b: Board, x: int, y: int, dirY: int, dirX: int, marks: bool)
    requires Sized(b.cells) && InBorders(x, y) && Unit(dirY, dirX)
    requires b.cells[IndexOf(x, y)].linkedTile.Some?
    ensures MoveTileInDirection(b, x, y, dirY, dirX, marks) == Jump(b, x, y, dirY, dirX, marks)
  {
    var walk, jump := MoveTileInDirection(b, x, y, dirY, dirX, marks), Jump(b, x, y, dirY, dirX, marks);
    var l := Landing(b.cells, x, y, dirY, dirX);
    WalkLands(b, x, y, dirY, dirX, marks);
    JumpSettles(b, x, y, dirY, dirX, marks);
    if MergesAhead(b, x, y, dirY, dirX) {
      MergedOnce(b, walk, jump, x, y, l.0, l.1, dirY, dirX, marks);
    } else {
      LandedOnce(b, walk, jump, x, y, l.0, l.1);
    }
  }

  /** `b1` is `b` with the tile of cell `start` moved to cell `one`. */
  predicate Stepped(b: Board, b1: Board, start: nat, one: nat)
    requires start < |b.cells| && one < |b.cells|
  {
    && b1.score == b.score
    && |b1.cells| == |b.cells|
    && b1.cells[one] == b.cells[one].(linkedTile := b.cells[start].linkedTile)
    && b1.cells[start] == b.cells[start].(linkedTile := None)
    && forall k | 0 <= k < |b.cells| && k != start && k != one :: b1.cells[k] == b.cells[k]
  }

  /** One step of the walk into the empty next cell: the walk goes on from
      there, towards the same landing cell. */
  lemma StepAhead(b: Board, x: int, y: int, dirY: int, dirX: int, marks: bool) returns (b1: Board)
    requires Sized(b.cells) && InBorders(x, y) && Unit(dirY, dirX)
    requires b.cells[IndexOf(x, y)].linkedTile.Some?
    requires InBorders(x + dirX, y + dirY) && b.cells[IndexOf(x + dirX, y + dirY)].linkedTile.None?
    ensures Remaining(x + dirX, y + dirY, dirY, dirX) < Remaining(x, y, dirY, dirX)
    ensures Stepped(b, b1, Spot(x, y), Spot(x + dirX, y + dirY))
    ensures Sized(b1.cells) && b1.cells[IndexOf(x + dirX, y + dirY)].linkedTile.Some?
    ensures Landing(b1.cells, x + dirX, y + dirY, dirY, dirX) == Landing(b.cells, x, y, dirY, dirX)
    ensures MoveTileInDirection(b, x, y, dirY, dirX, marks)
         == MoveTileInDirection(b1, x + dirX, y + dirY, dirY, dirX, marks)
  {
    IndexInBorders(x, y);
    IndexInBorders(x + dirX, y + dirY);
    var start, one := IndexOf(x, y), IndexOf(x + dirX, y + dirY);
    StepRemaining(x, y, dirY, dirX);
    MoveTileLands(b.cells, start, one);
    b1 := b.(cells := MoveTile(b.cells, start, one));
    LandingAfterStep(b.cells, x, y, dirY, dirX);
    WalkFirstStep(b, x, y, dirY, dirX, marks, b1);
  }

  /** Where the walk from the next cell ends after one step, the walk from
      `(x, y)` ends. */
  lemma {:induction false} EndsOnward(b: Board, x: int, y: int, dirY: int, dirX: int, marks: bool, b1: Board, lx: int, ly: int)
    requires Sized(b.cells) && InBorders(x, y) && Unit(dirY, dirX)
    requires b.cells[Spot(x, y)].linkedTile.Some?
    requires InBorders(x + dirX, y + dirY) && b.cells[Spot(x + dirX, y + dirY)].linkedTile.None?
    requires Remaining(x + dirX, y + dirY, dirY, dirX) < Remaining(x, y, dirY, dirX)
    requires Stepped(b, b1, Spot(x, y), Spot(x + dirX, y + dirY))
    requires Sized(b1.cells) && b1.cells[Spot(x + dirX, y + dirY)].linkedTile.Some?
    requires (lx, ly) == Landing(b1.cells, x + dirX, y + dirY, dirY, dirX)
    ensures InBorders(lx, ly)
    ensures EndsAt(b, MoveTileInDirection(b1, x + dirX, y + dirY, dirY, dirX, marks), x, y, lx, ly, dirY, dirX, marks)
    decreases Remaining(x, y, dirY, dirX), 0
  {
    WalkEnds(b1, x + dirX, y + dirY, dirY, dirX, marks, lx, ly);
    OnwardAt(b, x, y, dirY, dirX, marks, b1, MoveTileInDirection(b1, x + dirX, y + dirY, dirY, dirX, marks), lx, ly);
  }

  /** The walk from the next cell and the walk from `(x, y)` both reach
      `(lx, ly)` and meet the same tile there. */
  lemma OnwardAt(b: Board, x: int, y: int, dirY: int, dirX: int, marks: bool, b1: Board, r: Board, lx: int, ly: int)
    requires Sized(b.cells) && InBorders(x, y) && Unit(dirY, dirX)
    requires b.cells[Spot(x, y)].linkedTile.Some?
    requires InBorders(x + dirX, y + dirY) && b.cells[Spot(x + dirX, y + dirY)].linkedTile.None?
    requires Stepped(b, b1, Spot(x, y), Spot(x + dirX, y + dirY))
    requires Sized(b1.cells) && b1.cells[Spot(x + dirX, y + dirY)].linkedTile.Some?
    requires (lx, ly) == Landing(b1.cells, x + dirX, y + dirY, dirY, dirX)
    requires EndsAt(b1, r, x + dirX, y + dirY, lx, ly, dirY, dirX, marks)
    ensures EndsAt(b, r, x, y, lx, ly, dirY, dirX, marks)
  {
    LandingOnRay(b1.cells, x + dirX, y + dirY, dirY, dirX);
    StepRemaining(x, y, dirY, dirX);
    assert Spot(lx, ly) != Spot(x, y) by {
      IndexInBorders(lx, ly);
      IndexInBorders(x, y);
    }
    if MergesAt(b.cells, x, y, lx, ly, dirY, dirX) {
      NextIsFresh(x, y, dirY, dirX, lx, ly);
      NextIsFresh(x + dirX, y + dirY, dirY, dirX, lx, ly);
      MergesAfterStep(b, b1, x, y, lx, ly, dirY, dirX);
      MergedOnward(b, b1, r, x, y, lx, ly, dirY, dirX, marks);
    } else {
      if InBorders(lx + dirX, ly + dirY) {
        NextIsFresh(x, y, dirY, dirX, lx, ly);
        NextIsFresh(x + dirX, y + dirY, dirY, dirX, lx, ly);
      }
      MergesAfterStep(b, b1, x, y, lx, ly, dirY, dirX);
      LandedOnward(b, b1, r, x, y, lx, ly, dirY, dirX);
    }
  }

  /** The tile met ahead of `(lx, ly)` is the same before and after the step. */
  lemma MergesAfterStep(b: Board, b1: Board, x: int, y: int, lx: int, ly: int, dirY: int, dirX: int)
    requires Sized(b.cells) && InBorders(x, y) && InBorders(x + dirX, y + dirY) && InBorders(lx, ly)
    requires Spot(x + dirX, y + dirY) != Spot(x, y)
    requires InBorders(lx + dirX, ly + dirY) ==>
      Spot(lx + dirX, ly + dirY) != Spot(x, y) && Spot(lx + dirX, ly + dirY) != Spot(x + dirX, y + dirY)
    requires Stepped(b, b1, Spot(x, y), Spot(x + dirX, y + dirY))
    ensures MergesAt(b1.cells, x + dirX, y + dirY, lx, ly, dirY, dirX) == MergesAt(b.cells, x, y, lx, ly, dirY, dirX)
  {
    if InBorders(lx + dirX, ly + dirY) {
      var ahead := Spot(lx + dirX, ly + dirY);
      assert b1.cells[ahead] == b.cells[ahead];
    }
  }

  /** Landing from the next cell after a step is landing from `(x, y)`. */
  lemma LandedOnward(b: Board, b1: Board, r: Board, x: int, y: int, lx: int, ly: int, dirY: int, dirX: int)
    requires Sized(b.cells) && InBorders(x, y) && InBorders(x + dirX, y + dirY) && InBorders(lx, ly)
    requires Spot(x + dirX, y + dirY) != Spot(x, y) && Spot(lx, ly) != Spot(x, y)
    requires b.cells[Spot(x + dirX, y + dirY)].linkedTile.None?
    requires Stepped(b, b1, Spot(x, y), Spot(x + dirX, y + dirY))
    requires LandedAt(b1, r, x + dirX, y + dirY, lx, ly)
    ensures LandedAt(b, r, x, y, lx, ly)
  {
    var start, one, land := Spot(x, y), Spot(x + dirX, y + dirY), Spot(lx, ly);
    if land != one {
      assert r.cells[one] == b.cells[one];
    }
  }

  /** Merging from the next cell after a step is merging from `(x, y)`. */
  lemma MergedOnward(b: Board, b1: Board, r: Board, x: int, y: int, lx: int, ly: int, dirY: int, dirX: int, marks: bool)
    requires Sized(b.cells) && InBorders(x, y) && InBorders(x + dirX, y + dirY) && InBorders(lx + dirX, ly + dirY)
    requires b.cells[Spot(x, y)].linkedTile.Some?
    requires Spot(x + dirX, y + dirY) != Spot(x, y)
    requires Spot(lx + dirX, ly + dirY) != Spot(x, y) && Spot(lx + dirX, ly + dirY) != Spot(x + dirX, y + dirY)
    requires b.cells[Spot(x + dirX, y + dirY)].linkedTile.None?
    requires Stepped(b, b1, Spot(x, y), Spot(x + dirX, y + dirY))
    requires MergedAt(b1, r, x + dirX, y + dirY, lx, ly, dirY, dirX, marks)
    ensures MergedAt(b, r, x, y, lx, ly, dirY, dirX, marks)
  {
    var one := Spot(x + dirX, y + dirY);
    assert r.cells[one] == b.cells[one];
  }

  /** Two boards that both land the same tile on the same cell are equal. */
  lemma LandedOnce(b: Board, r1: Board, r2: Board, x: int, y: int, lx: int, ly: int)
    requires Sized(b.cells) && InBorders(x, y) && InBorders(lx, ly)
    requires LandedAt(b, r1, x, y, lx, ly) && LandedAt(b, r2, x, y, lx, ly)
    ensures r1 == r2
  {
    assert r1.cells == r2.cells by {
      forall k | 0 <= k < CellsCount ensures r1.cells[k] == r2.cells[k] {
      }
    }
  }

  /** Two boards that both merge the same tile into the same cell are equal. */
  lemma MergedOnce(b: Board, r1: Board, r2: Board, x: int, y: int, lx: int, ly: int, dirY: int, dirX: int, marks: bool)
    requires Sized(b.cells) && InBorders(x, y) && InBorders(lx + dirX, ly + dirY)
    requires b.cells[Spot(x, y)].linkedTile.Some?
    requires MergedAt(b, r1, x, y, lx, ly, dirY, dirX, marks) && MergedAt(b, r2, x, y, lx, ly, dirY, dirX, marks)
    ensures r1 == r2
  {
    assert r1.cells == r2.cells by {
      forall k | 0 <= k < CellsCount ensures r1.cells[k] == r2.cells[k] {
      }
    }
  }

  lemma JumpSettles(b: Board, x: int, y: int, dirY: int, dirX: int, marks: bool)
    requires Sized(b.cells) && InBorders(x, y) && Unit(dirY, dirX)
    requires b.cells[IndexOf(x, y)].linkedTile.Some?
    ensures !MergesAhead(b, x, y, dirY, dirX) ==> Landed(b, Jump(b, x, y, dirY, dirX, marks), x, y, dirY, dirX)
    ensures MergesAhead(b, x, y, dirY, dirX) ==>
      MergedAhead(b, Jump(b, x, y, dirY, dirX, marks), x, y, dirY, dirX, marks)
  {
    var l := Landing(b.cells, x, y, dirY, dirX);
    AheadOfLanding(b.cells, x, y, dirY, dirX);
    if MergesAhead(b, x, y, dirY, dirX) {
      JumpToMerges(b, x, y, l.0, l.1, dirY, dirX, marks);
    } else {
      JumpToLands(b, x, y, l.0, l.1, dirY, dirX, marks);
    }
  }

  lemma JumpToLands(b: Board, x: int, y: int, lx: int, ly: int, dirY: int, dirX: int, marks: bool)
    requires Sized(b.cells) && InBorders(x, y) && InBorders(lx, ly)
    requires InBorders(lx + dirX, ly + dirY) ==>
      Spot(lx + dirX, ly + dirY) != Spot(lx, ly) && Spot(lx + dirX, ly + dirY) != Spot(x, y)
    requires !MergesAt(b.cells, x, y, lx, ly, dirY, dirX)
    ensures LandedAt(b, JumpTo(b, x, y, lx, ly, dirY, dirX, marks), x, y, lx, ly)
  {
    var moved := Carry(b.cells, Spot(x, y), Spot(lx, ly));
    if InBorders(lx + dirX, ly + dirY) {
      assert moved[Spot(lx + dirX, ly + dirY)] == b.cells[Spot(lx + dirX, ly + dirY)];
    }
    SettleStays(Board(moved, b.score), lx, ly, dirY, dirX, marks);
  }

  lemma JumpToMerges(b: Board, x: int, y: int, lx: int, ly: int, dirY: int, dirX: int, marks: bool)
    requires Sized(b.cells) && InBorders(x, y) && InBorders(lx, ly)
    requires b.cells[Spot(x, y)].linkedTile.Some?
    requires Spot(lx, ly) != Spot(x, y) ==> b.cells[Spot(lx, ly)].linkedTile.None?
    requires InBorders(lx + dirX, ly + dirY) ==>
      Spot(lx + dirX, ly + dirY) != Spot(lx, ly) && Spot(lx + dirX, ly + dirY) != Spot(x, y)
    requires MergesAt(b.cells, x, y, lx, ly, dirY, dirX)
    ensures MergedAt(b, JumpTo(b, x, y, lx, ly, dirY, dirX, marks), x, y, lx, ly, dirY, dirX, marks)
  {
    var start, land, next := Spot(x, y), Spot(lx, ly), Spot(lx + dirX, ly + dirY);
    var moved := Carry(b.cells, start, land);
    assert moved[next] == b.cells[next];
    SettleMerges(Board(moved, b.score), lx, ly, dirY, dirX, marks);
    MergeTilesEffect(Board(moved, b.score), next, land, marks);
  }

  /** The cell after the landing cell is neither the landing cell nor the
      first cell, and the landing cell is the first cell or empty. */
  lemma AheadOfLanding(cells: seq<PCell>, x: int, y: int, dirY: int, dirX: int)
    requires Sized(cells) && InBorders(x, y) && Unit(dirY, dirX)
    ensures var l := Landing(cells, x, y, dirY, dirX);
      && (Spot(l.0, l.1) != Spot(x, y) ==> cells[Spot(l.0, l.1)].linkedTile.None?)
      && (InBorders(l.0 + dirX, l.1 + dirY) ==>
            Spot(l.0 + dirX, l.1 + dirY) != Spot(l.0, l.1) && Spot(l.0 + dirX, l.1 + dirY) != Spot(x, y))
  {
    var l := Landing(cells, x, y, dirY, dirX);
    LandingOnRay(cells, x, y, dirY, dirX);
    RayOrder(x, y, dirY, dirX, l.0, l.1);
    if Spot(l.0, l.1) != Spot(x, y) {
      RunCellEmpty(cells, x, y, dirY, dirX, l.0, l.1);
    }
    if InBorders(l.0 + dirX, l.1 + dirY) {
      NextIsFresh(x, y, dirY, dirX, l.0, l.1);
    }
  }

  /** A cell of the ray other than `(x, y)` is strictly nearer the border. */
  lemma RayOrder(x: int, y: int, dirY: int, dirX: int, px: int, py: int)
    requires InBorders(x, y) && Unit(dirY, dirX) && InBorders(px, py) && OnRay(x, y, dirY, dirX, px, py)
    ensures Spot(px, py) != Spot(x, y) ==> Remaining(px, py, dirY, dirX) < Remaining(x, y, dirY, dirX)
  {
  }

  /** The cell after a cell of the ray is not that cell and not `(x, y)`. */
  lemma NextIsFresh(x: int, y: int, dirY: int, dirX: int, px: int, py: int)
    requires InBorders(x, y) && Unit(dirY, dirX) && InBorders(px, py)
    requires Remaining(px, py, dirY, dirX) <= Remaining(x, y, dirY, dirX)
    requires InBorders(px + dirX, py + dirY)
    ensures Spot(px + dirX, py + dirY) != Spot(px, py) && Spot(px + dirX, py + dirY) != Spot(x, y)
  {
    StepRemaining(px, py, dirY, dirX);
    IndexInBorders(px + dirX, py + dirY);
    IndexInBorders(x, y);
  }

  lemma SettleStays(b: Board, x: int, y: int, dirY: int, dirX: int, marks: bool)
    requires Sized(b.cells) && InBorders(x, y)
    requires InBorders(x + dirX, y + dirY) ==>
      !IsTilesMerge(b.cells[Spot(x + dirX, y + dirY)], b.cells[Spot(x, y)])
    ensures Settle(b, x, y, dirY, dirX, marks) == b
  {
  }

  lemma SettleMerges(b: Board, x: int, y: int, dirY: int, dirX: int, marks: bool)
    requires Sized(b.cells) && InBorders(x, y) && InBorders(x + dirX, y + dirY)
    requires IsTilesMerge(b.cells[Spot(x + dirX, y + dirY)], b.cells[Spot(x, y)])
    ensures Settle(b, x, y, dirY, dirX, marks) == MergeTiles(b, Spot(x + dirX, y + dirY), Spot(x, y), marks)
  {
  }

  /** A walk whose next cell is empty steps into it and walks on from there. */
  lemma WalkFirstStep(b: Board, x: int, y: int, dirY: int, dirX: int, marks: bool, b1: Board)
    requires Sized(b.cells) && InBorders(x, y) && Unit(dirY, dirX)
    requires b.cells[IndexOf(x, y)].linkedTile.Some?
    requires InBorders(x + dirX, y + dirY)
    requires 0 <= IndexOf(x + dirX, y + dirY) < CellsCount
    requires b.cells[IndexOf(x + dirX, y + dirY)].linkedTile.None?
    requires b1 == b.(cells := MoveTile(b.cells, IndexOf(x, y), IndexOf(x + dirX, y + dirY)))
    requires Sized(b1.cells) && b1.cells[IndexOf(x + dirX, y + dirY)].linkedTile.Some?
    ensures MoveTileInDirection(b, x, y, dirY, dirX, marks)
         == MoveTileInDirection(b1, x + dirX, y + dirY, dirY, dirX, marks)
  {
    IndexBound(x, y);
  }

  /** With the next cell off the board or taken, the walk and the jump both
      only settle the tile where it stands. */
  lemma JumpInPlace(b: Board, x: int, y: int, dirY: int, dirX: int, marks: bool)
    requires Sized(b.cells) && InBorders(x, y) && Unit(dirY, dirX)
    requires b.cells[IndexOf(x, y)].linkedTile.Some?
    requires InBorders(x + dirX, y + dirY) ==>
      0 <= IndexOf(x + dirX, y + dirY) < CellsCount && b.cells[IndexOf(x + dirX, y + dirY)].linkedTile.Some?
    ensures Jump(b, x, y, dirY, dirX, marks) == Settle(b, x, y, dirY, dirX, marks)
    ensures MoveTileInDirection(b, x, y, dirY, dirX, marks) == Settle(b, x, y, dirY, dirX, marks)
  {
    assert Landing(b.cells, x, y, dirY, dirX) == (x, y);
  }

  /** A step into the empty next cell leaves the landing cell where it was. */
  lemma LandingAfterStep(cells: seq<PCell>, x: int, y: int, dirY: int, dirX: int)
    requires Sized(cells) && InBorders(x, y) && Unit(dirY, dirX)
    requires InBorders(x + dirX, y + dirY) && cells[Spot(x + dirX, y + dirY)].linkedTile.None?
    ensures Sized(MoveTile(cells, Spot(x, y), Spot(x + dirX, y + dirY)))
    ensures Landing(MoveTile(cells, Spot(x, y), Spot(x + dirX, y + dirY)), x + dirX, y + dirY, dirY, dirX)
         == Landing(cells, x, y, dirY, dirX)
  {
    IndexInBorders(x, y);
    IndexInBorders(x + dirX, y + dirY);
    StepRemaining(x, y, dirY, dirX);
    LandingAfterMove(cells, Spot(x, y), Spot(x + dirX, y + dirY), x + dirX, y + dirY, dirY, dirX);
    LandingThroughEmpty(cells, x, y, dirY, dirX);
  }

  /** Moving a tile between two cells no nearer the border than `(x, y)`
      does not move the landing cell. */
  lemma LandingAfterMove(cells: seq<PCell>, start: nat, one: nat, x: int, y: int, dirY: int, dirX: int)
    requires Sized(cells) && InBorders(x, y) && Unit(dirY, dirX) && start < CellsCount && one < CellsCount
    requires Remaining(start % GridSize, start / GridSize, dirY, dirX) >= Remaining(x, y, dirY, dirX)
    requires Remaining(one % GridSize, one / GridSize, dirY, dirX) >= Remaining(x, y, dirY, dirX)
    ensures Sized(MoveTile(cells, start, one))
    ensures Landing(MoveTile(cells, start, one), x, y, dirY, dirX) == Landing(cells, x, y, dirY, dirX)
  {
    var c1 := cells[one := cells[one].(linkedTile := cells[start].linkedTile)];
    LandingAfterUpdate(cells, one, c1[one], x, y, dirY, dirX);
    LandingAfterUpdate(c1, start, cells[start].(linkedTile := None), x, y, dirY, dirX);
  }

  /** Through an empty next cell the landing cell is the next cell's. */
  lemma LandingThroughEmpty(cells: seq<PCell>, x: int, y: int, dirY: int, dirX: int)
    requires Sized(cells) && InBorders(x, y) && Unit(dirY, dirX)
    requires InBorders(x + dirX, y + dirY) && cells[Spot(x + dirX, y + dirY)].linkedTile.None?
    ensures Landing(cells, x, y, dirY, dirX) == Landing(cells, x + dirX, y + dirY, dirY, dirX)
    ensures Remaining(x + dirX, y + dirY, dirY, dirX) < Remaining(x, y, dirY, dirX)
  {
    StepRemaining(x, y, dirY, dirX);
  }

  /** The cells `moveTilesUp` and its siblings visit, in their loop order:
      every cell except those of the leading line. */
  function Visits(d: Direction): (vs: seq<(int, int)>)
    ensures |vs| == 12
    ensures forall n | 0 <= n < 12 :: InBorders(vs[n].0, vs[n].1)
  {
    seq(12, n requires 0 <= n < 12 =>
      match d
      case Up => (n / 3, n % 3 + 1)
      case Down => (n / 3, 2 - n % 3)
      case Left => (n % 3 + 1, n / 3)
      case Right => (2 - n % 3, n / 3))
  }

  /** The loops of `moveTilesUp` … `moveTilesRight` from visit `n` on: every
      visited cell holding a tile walks in direction `d`. */
  function SweepFrom(b: Board, d: Direction, n: nat, marks: bool): (r: Board)
    requires WellFormed(b.cells) && n <= 12
    ensures WellFormed(r.cells)
    ensures !marks && Unmarked(b.cells) ==> Unmarked(r.cells)
    decreases 12 - n
  {
    if n == 12 then b
    else
      var (x, y) := Visits(d)[n];
      var (dirY, dirX) := Offsets(d);
      IndexInBorders(x, y);
      var next := if b.cells[IndexOf(x, y)].linkedTile.Some?
        then
          WalkKeepsForm(b, x, y, dirY, dirX, marks);
          WalkKeepsUnmarked(b, x, y, dirY, dirX, marks);
          MoveTileInDirection(b, x, y, dirY, dirX, marks)
        else b;
      SweepFrom(next, d, n + 1, marks)
  }

  function Sweep(b: Board, d: Direction, marks: bool): (r: Board)
    requires WellFormed(b.cells)
    ensures WellFormed(r.cells)
    ensures !marks && Unmarked(b.cells) ==> Unmarked(r.cells)
  {
    SweepFrom(b, d, 0, marks)
  }

  // ---------------------------------------------------------------------
  // What a sweep conserves and what it lowers

  /** The tile values, cell by cell. */
  function Values(cells: seq<PCell>): (vs: seq<Option<nat>>)
    ensures |vs| == |cells| && forall i | 0 <= i < |cells| :: vs[i] == cells[i].linkedTile
  {
    seq(|cells|, i requires 0 <= i < |cells| => cells[i].linkedTile)
  }

  /** The sum of the tile values from cell `i` on. */
  function ValueSum(cells: seq<PCell>, i: nat): int
    requires i <= |cells|
    decreases |cells| - i
  {
    if i == |cells| then 0 else ValueAt(cells[i]) + ValueSum(cells, i + 1)
  }

  /** A tile's weight: one for the tile plus the steps it still could go. */
  function Weight(c: PCell, i: int, dirY: int, dirX: int): int {
    if c.linkedTile.Some? then 1 + Remaining(i % GridSize, i / GridSize, dirY, dirX) else 0
  }

  /** The total weight of the tiles from cell `i` on: every step and every
      merge of a walk lowers it. */
  function Potential(cells: seq<PCell>, i: nat, dirY: int, dirX: int): int
    requires i <= |cells|
    decreases |cells| - i
  {
    if i == |cells| then 0 else Weight(cells[i], i, dirY, dirX) + Potential(cells, i + 1, dirY, dirX)
  }

  lemma {:induction false} ValueSumUpdate(cells: seq<PCell>, k: nat, c: PCell, i: nat)
    requires k < |cells| && i <= |cells|
    ensures ValueSum(cells[k := c], i)
         == ValueSum(cells, i) + (if i <= k then ValueAt(c) - ValueAt(cells[k]) else 0)
    decreases |cells| - i
  {
    if i < |cells| {
      ValueSumUpdate(cells, k, c, i + 1);
    }
  }

  lemma {:induction false} PotentialUpdate(cells: seq<PCell>, k: nat, c: PCell, i: nat, dirY: int, dirX: int)
    requires k < |cells| && i <= |cells|
    ensures Potential(cells[k := c], i, dirY, dirX)
         == Potential(cells, i, dirY, dirX)
            + (if i <= k then Weight(c, k, dirY, dirX) - Weight(cells[k], k, dirY, dirX) else 0)
    decreases |cells| - i
  {
    if i < |cells| {
      PotentialUpdate(cells, k, c, i + 1, dirY, dirX);
    }
  }

  /** The potential only looks at which cells hold a tile. */
  lemma {:induction false} PotentialOfValues(a: seq<PCell>, b: seq<PCell>, i: nat, dirY: int, dirX: int)
    requires |a| == |b| && i <= |a| && Values(a) == Values(b)
    ensures Potential(a, i, dirY, dirX) == Potential(b, i, dirY, dirX)
    decreases |a| - i
  {
    if i < |a| {
      assert Values(a)[i] == Values(b)[i];
      PotentialOfValues(a, b, i + 1, dirY, dirX);
    }
  }

  /** A single step moves one tile one cell closer to the border. */
  lemma MoveTileStep(cells: seq<PCell>, current: nat, target: nat, dirY: int, dirX: int)
    requires current < |cells| && target < |cells| && current != target
    requires cells[current].linkedTile.Some? && cells[target].linkedTile.None?
    ensures ValueSum(MoveTile(cells, current, target), 0) == ValueSum(cells, 0)
    ensures Potential(MoveTile(cells, current, target), 0, dirY, dirX)
         == Potential(cells, 0, dirY, dirX)
            + Remaining(target % GridSize, target / GridSize, dirY, dirX)
            - Remaining(current % GridSize, current / GridSize, dirY, dirX)
  {
    var c1 := cells[target := cells[target].(linkedTile := cells[current].linkedTile)];
    var c2 := c1[current := cells[current].(linkedTile := None)];
    ValueSumUpdate(cells, target, c1[target], 0);
    ValueSumUpdate(c1, current, c2[current], 0);
    PotentialUpdate(cells, target, c1[target], 0, dirY, dirX);
    PotentialUpdate(c1, current, c2[current], 0, dirY, dirX);
  }

  /** A merge keeps the sum of the values, removes the moving tile's weight
      and adds the doubled value to the score. */
  lemma MergeStep(b: Board, target: nat, current: nat, marks: bool, dirY: int, dirX: int)
    requires target < |b.cells| && current < |b.cells| && target != current
    requires IsTilesMerge(b.cells[target], b.cells[current])
    ensures var r := MergeTiles(b, target, current, marks);
      && ValueSum(r.cells, 0) == ValueSum(b.cells, 0)
      && r.score == b.score + 2 * ValueAt(b.cells[current])
      && Potential(r.cells, 0, dirY, dirX)
         == Potential(b.cells, 0, dirY, dirX) - Weight(b.cells[current], current, dirY, dirX)
  {
    var r := MergeTiles(b, target, current, marks);
    var cells := b.cells;
    var c1 := cells[target := r.cells[target]];
    ValueSumUpdate(cells, target, c1[target], 0);
    ValueSumUpdate(c1, current, r.cells[current], 0);
    PotentialUpdate(cells, target, c1[target], 0, dirY, dirX);
    PotentialUpdate(c1, current, r.cells[current], 0, dirY, dirX);
    assert r.cells == c1[current := r.cells[current]];
  }

  /** The three quantities a walk is judged by. */
  datatype Tally = Tally(sum: int, score: int, potential: int)

  function TallyOf(b: Board, dirY: int, dirX: int): Tally {
    Tally(ValueSum(b.cells, 0), b.score, Potential(b.cells, 0, dirY, dirX))
  }

  /** What a walk promises: the sum of the values kept, the score not
      lowered, the potential not raised, and lowered when `open`. */
  predicate Within(before: Tally, after: Tally, open: bool) {
    && after.sum == before.sum
    && after.score >= before.score
    && after.potential <= before.potential - (if open then 1 else 0)
  }

  predicate WalkBound(b: Board, r: Board, dirY: int, dirX: int, open: bool) {
    Within(TallyOf(b, dirY, dirX), TallyOf(r, dirY, dirX), open)
  }

  lemma StepRemaining(x: int, y: int, dirY: int, dirX: int)
    requires InBorders(x, y) && Unit(dirY, dirX) && InBorders(x + dirX, y + dirY)
    ensures 0 <= Remaining(x + dirX, y + dirY, dirY, dirX) == Remaining(x, y, dirY, dirX) - 1
    ensures IndexOf(x, y) != IndexOf(x + dirX, y + dirY)
  {
  }

  /** One walk keeps the sum of the values and never lowers the score; it
      never raises the potential, and lowers it whenever its first step is
      open. */
  lemma {:induction false} WalkLowersPotential(b: Board, x: int, y: int, dirY: int, dirX: int, marks: bool)
    requires Sized(b.cells) && InBorders(x, y) && Unit(dirY, dirX)
    requires b.cells[IndexOf(x, y)].linkedTile.Some?
    ensures WalkBound(b, MoveTileInDirection(b, x, y, dirY, dirX, marks), dirY, dirX,
                      IsTilesMoveInDirection(b.cells, x, y, dirX, dirY))
    decreases Remaining(x, y, dirY, dirX), 1
  {
    if InBorders(x + dirX, y + dirY) {
      IndexBound(x + dirX, y + dirY);
      IndexBound(x, y);
      StepRemaining(x, y, dirY, dirX);
      if HasNoLinkedTile(b.cells[IndexOf(x + dirX, y + dirY)]) {
        WalkOnward(b, x, y, dirY, dirX, marks);
      } else if IsTilesMerge(b.cells[IndexOf(x + dirX, y + dirY)], b.cells[IndexOf(x, y)]) {
        MergeStep(b, IndexOf(x + dirX, y + dirY), IndexOf(x, y), marks, dirY, dirX);
      }
    }
  }

  /** The walk case of `WalkLowersPotential`: one step into an empty cell,
      then the rest of the walk from the next cell. */
  lemma {:induction false} WalkOnward(b: Board, x: int, y: int, dirY: int, dirX: int, marks: bool)
    requires Sized(b.cells) && InBorders(x, y) && Unit(dirY, dirX)
    requires b.cells[IndexOf(x, y)].linkedTile.Some?
    requires InBorders(x + dirX, y + dirY)
    requires 0 <= IndexOf(x + dirX, y + dirY) < CellsCount
    requires HasNoLinkedTile(b.cells[IndexOf(x + dirX, y + dirY)])
    ensures WalkBound(b, MoveTileInDirection(b, x, y, dirY, dirX, marks), dirY, dirX, true)
    decreases Remaining(x, y, dirY, dirX), 0
  {
    StepRemaining(x, y, dirY, dirX);
    IndexBound(x, y);
    MoveTileLands(b.cells, IndexOf(x, y), IndexOf(x + dirX, y + dirY));
    WalkLowersPotential(b.(cells := MoveTile(b.cells, IndexOf(x, y), IndexOf(x + dirX, y + dirY))),
                        x + dirX, y + dirY, dirY, dirX, marks);
    StepThenWalk(b, x, y, dirY, dirX, marks);
  }

  /** A first step into an empty cell, followed by a walk within the bound,
      keeps the bound strictly. */
  lemma StepThenWalk(b: Board, x: int, y: int, dirY: int, dirX: int, marks: bool)
    requires Sized(b.cells) && InBorders(x, y) && Unit(dirY, dirX)
    requires b.cells[IndexOf(x, y)].linkedTile.Some?
    requires InBorders(x + dirX, y + dirY)
    requires 0 <= IndexOf(x + dirX, y + dirY) < CellsCount
    requires HasNoLinkedTile(b.cells[IndexOf(x + dirX, y + dirY)])
    requires Sized(MoveTile(b.cells, IndexOf(x, y), IndexOf(x + dirX, y + dirY)))
    requires MoveTile(b.cells, IndexOf(x, y), IndexOf(x + dirX, y + dirY))[IndexOf(x + dirX, y + dirY)].linkedTile.Some?
    ensures WalkBound(b.(cells := MoveTile(b.cells, IndexOf(x, y), IndexOf(x + dirX, y + dirY))),
                      MoveTileInDirection(b.(cells := MoveTile(b.cells, IndexOf(x, y), IndexOf(x + dirX, y + dirY))),
                                          x + dirX, y + dirY, dirY, dirX, marks),
                      dirY, dirX,
                      IsTilesMoveInDirection(b.(cells := MoveTile(b.cells, IndexOf(x, y), IndexOf(x + dirX, y + dirY))).cells,
                                             x + dirX, y + dirY, dirX, dirY))
        ==> WalkBound(b, MoveTileInDirection(b, x, y, dirY, dirX, marks), dirY, dirX, true)
  {
    WalkSteps(b, x, y, dirY, dirX, marks,
              IsTilesMoveInDirection(MoveTile(b.cells, IndexOf(x, y), IndexOf(x + dirX, y + dirY)),
                                     x + dirX, y + dirY, dirX, dirY));
    StepLowers(b, x, y, dirY, dirX);
    if WalkBound(b.(cells := MoveTile(b.cells, IndexOf(x, y), IndexOf(x + dirX, y + dirY))),
                 MoveTileInDirection(b.(cells := MoveTile(b.cells, IndexOf(x, y), IndexOf(x + dirX, y + dirY))),
                                     x + dirX, y + dirY, dirY, dirX, marks),
                 dirY, dirX,
                 IsTilesMoveInDirection(b.(cells := MoveTile(b.cells, IndexOf(x, y), IndexOf(x + dirX, y + dirY))).cells,
                                        x + dirX, y + dirY, dirX, dirY)) {
      WalkChain(b, b.(cells := MoveTile(b.cells, IndexOf(x, y), IndexOf(x + dirX, y + dirY))),
                MoveTileInDirection(b, x, y, dirY, dirX, marks), dirY, dirX,
                IsTilesMoveInDirection(MoveTile(b.cells, IndexOf(x, y), IndexOf(x + dirX, y + dirY)),
                                       x + dirX, y + dirY, dirX, dirY));
    }
  }

  /** A first step into an empty cell keeps the sum of the values and lowers
      the potential. */
  lemma StepLowers(b: Board, x: int, y: int, dirY: int, dirX: int)
    requires Sized(b.cells) && InBorders(x, y) && Unit(dirY, dirX)
    requires b.cells[IndexOf(x, y)].linkedTile.Some?
    requires InBorders(x + dirX, y + dirY)
    requires 0 <= IndexOf(x + dirX, y + dirY) < CellsCount
    requires HasNoLinkedTile(b.cells[IndexOf(x + dirX, y + dirY)])
    ensures WalkBound(b, b.(cells := MoveTile(b.cells, IndexOf(x, y), IndexOf(x + dirX, y + dirY))), dirY, dirX, true)
  {
    IndexBound(x + dirX, y + dirY);
    IndexBound(x, y);
    StepRemaining(x, y, dirY, dirX);
    MoveTileStep(b.cells, IndexOf(x, y), IndexOf(x + dirX, y + dirY), dirY, dirX);
  }

  /** A walk whose first step is into an empty cell ends where the walk from
      the next cell ends, so what bounds the one bounds the other. */
  lemma WalkSteps(b: Board, x: int, y: int, dirY: int, dirX: int, marks: bool, open: bool)
    requires Sized(b.cells) && InBorders(x, y) && Unit(dirY, dirX)
    requires b.cells[IndexOf(x, y)].linkedTile.Some?
    requires InBorders(x + dirX, y + dirY)
    requires 0 <= IndexOf(x + dirX, y + dirY) < CellsCount
    requires HasNoLinkedTile(b.cells[IndexOf(x + dirX, y + dirY)])
    ensures WalkBound(b.(cells := MoveTile(b.cells, IndexOf(x, y), IndexOf(x + dirX, y + dirY))),
                      MoveTileInDirection(b.(cells := MoveTile(b.cells, IndexOf(x, y), IndexOf(x + dirX, y + dirY))),
                                          x + dirX, y + dirY, dirY, dirX, marks),
                      dirY, dirX, open)
        ==> WalkBound(b.(cells := MoveTile(b.cells, IndexOf(x, y), IndexOf(x + dirX, y + dirY))),
                      MoveTileInDirection(b, x, y, dirY, dirX, marks), dirY, dirX, open)
  {
    IndexBound(x, y);
    assert MoveTileInDirection(b, x, y, dirY, dirX, marks)
        == MoveTileInDirection(b.(cells := MoveTile(b.cells, IndexOf(x, y), IndexOf(x + dirX, y + dirY))),
                               x + dirX, y + dirY, dirY, dirX, marks);
  }

  /** A step keeps the size of the board and puts the tile in its target. */
  lemma MoveTileLands(cells: seq<PCell>, current: nat, target: nat)
    requires Sized(cells) && current < CellsCount && target < CellsCount && current != target
    ensures Sized(MoveTile(cells, current, target))
    ensures MoveTile(cells, current, target)[target].linkedTile == cells[current].linkedTile
  {
  }

  /** A step that lowers the potential, followed by a walk that does not
      raise it. */
  lemma WalkChain(b: Board, b': Board, r: Board, dirY: int, dirX: int, open: bool)
    requires WalkBound(b, b', dirY, dirX, true)
    requires WalkBound(b', r, dirY, dirX, open)
    ensures WalkBound(b, r, dirY, dirX, true)
  {
  }

  /** The test each visit of a sweep in direction `d` would need: the visited
      cell holds a tile whose first step, in the direction the move takes, is
      open. */
  predicate Movable(cells: seq<PCell>, d: Direction, n: nat)
    requires WellFormed(cells) && n < 12
  {
    var (x, y) := Visits(d)[n];
    IndexInBorders(x, y);
    cells[IndexOf(x, y)].linkedTile.Some? && IsTilesMoveInDirection(cells, x, y, Offsets(d).1, Offsets(d).0)
  }

  /** Some visit from `n` on finds a tile whose first step is open. */
  predicate SomeMovable(cells: seq<PCell>, d: Direction, n: nat)
    requires WellFormed(cells)
  {
    exists m | n <= m < 12 :: Movable(cells, d, m)
  }

  /** When visit `n` finds nothing to move, the later visits decide. */
  lemma SomeMovableNext(cells: seq<PCell>, d: Direction, n: nat)
    requires WellFormed(cells) && n < 12 && !Movable(cells, d, n)
    ensures SomeMovable(cells, d, n) == SomeMovable(cells, d, n + 1)
  {
    if SomeMovable(cells, d, n) {
      var m :| n <= m < 12 && Movable(cells, d, m);
      assert m != n;
    }
  }

  lemma {:induction false} SweepLowersPotential(b: Board, d: Direction, n: nat, marks: bool)
    requires WellFormed(b.cells) && n <= 12
    ensures WalkBound(b, SweepFrom(b, d, n, marks), Offsets(d).0, Offsets(d).1,
                      SomeMovable(b.cells, d, n))
    decreases 12 - n
  {
    if n < 12 {
      var (x, y) := Visits(d)[n];
      IndexInBorders(x, y);
      if b.cells[IndexOf(x, y)].linkedTile.Some? {
        WalkKeepsForm(b, x, y, Offsets(d).0, Offsets(d).1, marks);
        assert SweepFrom(b, d, n, marks)
            == SweepFrom(MoveTileInDirection(b, x, y, Offsets(d).0, Offsets(d).1, marks), d, n + 1, marks);
        WalkLowersPotential(b, x, y, Offsets(d).0, Offsets(d).1, marks);
        SweepLowersPotential(MoveTileInDirection(b, x, y, Offsets(d).0, Offsets(d).1, marks), d, n + 1, marks);
        if !Movable(b.cells, d, n) {
          StuckWalk(b, x, y, Offsets(d).0, Offsets(d).1, marks);
          SomeMovableNext(b.cells, d, n);
        }
        BoundsCompose(b, MoveTileInDirection(b, x, y, Offsets(d).0, Offsets(d).1, marks),
                      SweepFrom(MoveTileInDirection(b, x, y, Offsets(d).0, Offsets(d).1, marks), d, n + 1, marks),
                      Offsets(d).0, Offsets(d).1,
                      IsTilesMoveInDirection(b.cells, x, y, Offsets(d).1, Offsets(d).0),
                      SomeMovable(MoveTileInDirection(b, x, y, Offsets(d).0, Offsets(d).1, marks).cells, d, n + 1),
                      SomeMovable(b.cells, d, n));
      } else {
        assert SweepFrom(b, d, n, marks) == SweepFrom(b, d, n + 1, marks);
        SweepLowersPotential(b, d, n + 1, marks);
        assert !Movable(b.cells, d, n);
        SomeMovableNext(b.cells, d, n);
        BoundsWeaken(b, SweepFrom(b, d, n + 1, marks), Offsets(d).0, Offsets(d).1,
                     SomeMovable(b.cells, d, n + 1),
                     SomeMovable(b.cells, d, n));
      }
    }
  }

  /** A bound that is strict under a stronger condition is strict under a
      weaker one. */
  lemma BoundsWeaken(a: Board, c: Board, dirY: int, dirX: int, strong: bool, weak: bool)
    requires WalkBound(a, c, dirY, dirX, strong)
    requires weak ==> strong
    ensures WalkBound(a, c, dirY, dirX, weak)
  {
  }

  /** Two bounded stretches make a bounded whole, strict if either is. */
  lemma BoundsCompose(a: Board, b: Board, c: Board, dirY: int, dirX: int, first: bool, second: bool, whole: bool)
    requires WalkBound(a, b, dirY, dirX, first) && WalkBound(b, c, dirY, dirX, second)
    requires whole ==> first || second
    ensures WalkBound(a, c, dirY, dirX, whole)
  {
  }

  lemma {:induction false} StuckSweep(b: Board, d: Direction, n: nat, marks: bool)
    requires WellFormed(b.cells) && n <= 12
    requires forall m | n <= m < 12 :: !Movable(b.cells, d, m)
    ensures SweepFrom(b, d, n, marks) == b
    decreases 12 - n
  {
    if n < 12 {
      assert !Movable(b.cells, d, n);
      StuckSweep(b, d, n + 1, marks);
    }
  }

  // ---------------------------------------------------------------------
  // Legality

  /** The test `isMoveTilesUp` … `isMoveTilesRight` make at visit `n`, as
      written: the direction's offsets are handed on in the order
      `(dirY, dirX)` the moves use, but `isTilesMoveInDirection` reads them
      as `(dirX, dirY)`, so each direction tests the neighbour across the
      other axis. */
  predicate AsWrittenTest(cells: seq<PCell>, d: Direction, n: nat)
    requires WellFormed(cells) && n < 12
  {
    var (x, y) := Visits(d)[n];
    IndexInBorders(x, y);
    cells[IndexOf(x, y)].linkedTile.Some? && IsTilesMoveInDirection(cells, x, y, Offsets(d).0, Offsets(d).1)
  }

  /** `isMoveTilesUp()` … `isMoveTilesRight()`, as written. */
  predicate IsMoveTiles(cells: seq<PCell>, d: Direction)
    requires WellFormed(cells)
  {
    exists n | 0 <= n < 12 :: AsWrittenTest(cells, d, n)
  }

  /** `isMoveAnyDirection()`, as written. */
  predicate IsMoveAnyDirection(cells: seq<PCell>)
    requires WellFormed(cells)
  {
    IsMoveTiles(cells, Up) || IsMoveTiles(cells, Down) || IsMoveTiles(cells, Left) || IsMoveTiles(cells, Right)
  }

  /** The same checks with the offsets read the way the moves read them. */
  predicate IsMoveTilesFixed(cells: seq<PCell>, d: Direction)
    requires WellFormed(cells)
  {
    exists n | 0 <= n < 12 :: Movable(cells, d, n)
  }

  predicate IsMoveAnyDirectionFixed(cells: seq<PCell>)
    requires WellFormed(cells)
  {
    IsMoveTilesFixed(cells, Up) || IsMoveTilesFixed(cells, Down)
    || IsMoveTilesFixed(cells, Left) || IsMoveTilesFixed(cells, Right)
  }

  lemma PotentialOfSameValues(a: seq<PCell>, b: seq<PCell>, dirY: int, dirX: int)
    requires |a| == |b|
    ensures Values(a) == Values(b) ==> Potential(a, 0, dirY, dirX) == Potential(b, 0, dirY, dirX)
  {
    if Values(a) == Values(b) {
      PotentialOfValues(a, b, 0, dirY, dirX);
    }
  }

  /** With the offsets read the moves' way, the check for direction `d` holds
      exactly when sweeping in direction `d` changes some cell's tile. */
  lemma FixedCheckIffSweepMoves(b: Board, d: Direction, marks: bool)
    requires WellFormed(b.cells)
    ensures IsMoveTilesFixed(b.cells, d) <==> Values(Sweep(b, d, marks).cells) != Values(b.cells)
  {
    var r := Sweep(b, d, marks);
    if IsMoveTilesFixed(b.cells, d) {
      SweepLowersPotential(b, d, 0, marks);
      PotentialOfSameValues(r.cells, b.cells, Offsets(d).0, Offsets(d).1);
    } else {
      StuckSweep(b, d, 0, marks);
    }
  }

  // ---------------------------------------------------------------------
  // Spawning, the move functions and the key handler

  predicate HasRoom(cells: seq<PCell>) {
    exists i | 0 <= i < |cells| :: cells[i].linkedTile.None?
  }

  /** `cells.filter(cell => !cell.linkedTile)` from index `i` on, as indices. */
  function EmptyCells(cells: seq<PCell>, i: nat): (r: seq<nat>)
    requires i <= |cells|
    ensures forall j | 0 <= j < |r| :: i <= r[j] < |cells| && cells[r[j]].linkedTile.None?
    ensures forall m | i <= m < |cells| :: cells[m].linkedTile.None? ==> m in r
    decreases |cells| - i
  {
    if i == |cells| then []
    else (if cells[i].linkedTile.None? then [i] else []) + EmptyCells(cells, i + 1)
  }

  /** The rolls one spawn consumes: one to pick the cell, one for the value. */
  datatype Dice = Dice(cell: real, value: real)

  predicate IsDice(dice: Dice) {
    IsRoll(dice.cell)
  }

  /** `createTile(gridElement, attempts)`: a 2 or a 4 in a random empty cell;
      with no empty cell `emptyCells[randomIndex]` is `undefined` and the
      call retries until the attempts run out, changing nothing. */
  function CreateTile(cells: seq<PCell>, attempts: nat, dice: Dice): (r: seq<PCell>)
    requires IsDice(dice)
    ensures HasRoom(cells) ==> exists i | 0 <= i < |cells| ::
      && cells[i].linkedTile.None?
      && r == cells[i := cells[i].(linkedTile := Some(SpawnValue(dice.value)))]
    ensures !HasRoom(cells) ==> r == cells
    ensures SameFrame(r, cells)
    decreases attempts
  {
    var empties := EmptyCells(cells, 0);
    var k := PickIndex(|empties|, dice.cell);
    if k < |empties| then
      cells[empties[k] := cells[empties[k]].(linkedTile := Some(SpawnValue(dice.value)))]
    else if attempts > 0 then CreateTile(cells, attempts - 1, dice)
    else cells
  }

  /** `moveTilesUp()` … `moveTilesRight()`: the sweep, then `createTile`
      whether or not anything moved. */
  function MoveTilesIn(b: Board, d: Direction, dice: Dice): (r: Board)
    requires WellFormed(b.cells) && IsDice(dice)
    ensures WellFormed(r.cells)
  {
    var s := Sweep(b, d, false);
    Board(CreateTile(s.cells, MaxAttempts, dice), s.score)
  }

  /** `saveGameProgress()`. */
  function SaveGameProgress(b: Board): (snap: seq<Snapshot.Entry>)
    ensures |snap| == |b.cells| + 1
    ensures snap[|b.cells|] == Snapshot.ScoreEntry(b.score)
    ensures forall i | 0 <= i < |b.cells| ::
      snap[i] == Snapshot.CellEntry(b.cells[i].x, b.cells[i].y, b.cells[i].linkedTile)
  {
    seq(|b.cells|, i requires 0 <= i < |b.cells| =>
      Snapshot.CellEntry(b.cells[i].x, b.cells[i].y, b.cells[i].linkedTile))
    + [Snapshot.ScoreEntry(b.score)]
  }

  /** Every cell without its tile. */
  function ClearTiles(cells: seq<PCell>): (r: seq<PCell>)
    ensures |r| == |cells|
    ensures forall i | 0 <= i < |cells| :: r[i] == cells[i].(linkedTile := None)
  {
    seq(|cells|, i requires 0 <= i < |cells| => cells[i].(linkedTile := None))
  }

  /** The cell a successful `createTile` fills. */
  lemma CreatedAt(cells: seq<PCell>, attempts: nat, dice: Dice) returns (i: nat)
    requires IsDice(dice) && HasRoom(cells)
    ensures i < |cells| && cells[i].linkedTile.None?
    ensures CreateTile(cells, attempts, dice)
         == cells[i := cells[i].(linkedTile := Some(SpawnValue(dice.value)))]
  {
    i :| 0 <= i < |cells| && cells[i].linkedTile.None?
      && CreateTile(cells, attempts, dice)
         == cells[i := cells[i].(linkedTile := Some(SpawnValue(dice.value)))];
  }

  /** Cells `i` and `j` hold the two given values and every other cell is
      empty. */
  predicate TwoTilesAt(cells: seq<PCell>, i: int, j: int, v1: nat, v2: nat) {
    && 0 <= i < |cells| && 0 <= j < |cells| && i != j
    && cells[i].linkedTile == Some(v1)
    && cells[j].linkedTile == Some(v2)
    && forall m | 0 <= m < |cells| && m != i && m != j :: cells[m].linkedTile.None?
  }

  /** Two tiles created on an empty board land in two distinct cells. */
  lemma TwoCreated(cells: seq<PCell>, first: Dice, second: Dice)
    requires |cells| == CellsCount && IsDice(first) && IsDice(second)
    requires forall m | 0 <= m < CellsCount :: cells[m].linkedTile.None?
    ensures var r := CreateTile(CreateTile(cells, MaxAttempts, first), MaxAttempts, second);
      exists i, j :: TwoTilesAt(r, i, j, SpawnValue(first.value), SpawnValue(second.value))
  {
    assert cells[0].linkedTile.None?;
    var i := CreatedAt(cells, MaxAttempts, first);
    var once := CreateTile(cells, MaxAttempts, first);
    assert once[if i == 0 then 1 else 0].linkedTile.None?;
    var j := CreatedAt(once, MaxAttempts, second);
    var r := CreateTile(once, MaxAttempts, second);
    assert j != i;
    assert r[i].linkedTile == Some(SpawnValue(first.value));
    forall m | 0 <= m < CellsCount && m != i && m != j ensures r[m].linkedTile.None? {
      assert r[m] == cells[m];
    }
    assert TwoTilesAt(r, i, j, SpawnValue(first.value), SpawnValue(second.value));
  }

  /** `resetGame()`: every tile removed, the score zeroed and
      `createInitialTiles()` run. */
  function ResetGame(b: Board, first: Dice, second: Dice): (r: Board)
    requires WellFormed(b.cells) && IsDice(first) && IsDice(second)
    ensures WellFormed(r.cells) && r.score == 0
    ensures exists i, j :: TwoTilesAt(r.cells, i, j, SpawnValue(first.value), SpawnValue(second.value))
  {
    var cleared := ClearTiles(b.cells);
    assert SameFrame(cleared, b.cells);
    TwoCreated(cleared, first, second);
    Board(CreateTile(CreateTile(cleared, MaxAttempts, first), MaxAttempts, second), 0)
  }

  /** The browser state: the board and what the storage holds. */
  datatype PState = PState(board: Board, saved: Option<seq<Snapshot.Entry>>)

  /** The `keydown` listener, as written: when the game-over check fails the
      game restarts; an arrow key sweeps, spawns a tile and saves; any other
      key does nothing. */
  function KeyDown(st: PState, key: Key, first: Dice, second: Dice): (r: PState)
    requires WellFormed(st.board.cells) && IsDice(first) && IsDice(second)
    ensures WellFormed(r.board.cells)
    ensures !IsMoveAnyDirection(st.board.cells) ==>
      r == PState(ResetGame(st.board, first, second), st.saved)
    ensures IsMoveAnyDirection(st.board.cells) && key.OtherKey? ==> r == st
    ensures IsMoveAnyDirection(st.board.cells) && key.Arrow? ==>
      && r.board == MoveTilesIn(st.board, key.direction, first)
      && r.saved == Some(SaveGameProgress(r.board))
  {
    if !IsMoveAnyDirection(st.board.cells) then PState(ResetGame(st.board, first, second), st.saved)
    else
      match key
      case OtherKey => st
      case Arrow(d) =>
        var b := MoveTilesIn(st.board, d, first);
        PState(b, Some(SaveGameProgress(b)))
  }

  // ---------------------------------------------------------------------
  // Restoring a saved game

  /** `cells.find(cell => cell.x === x && cell.y === y)` from index `from`:
      the first cell with those coordinates. */
  function FindCell(cells: seq<PCell>, x: int, y: int, from: nat): (r: Option<nat>)
    requires from <= |cells|
    ensures r.Some? ==> from <= r.value < |cells| && cells[r.value].x == x && cells[r.value].y == y
    ensures r.Some? ==> forall m | from <= m < r.value :: !(cells[m].x == x && cells[m].y == y)
    ensures r.None? ==> forall m | from <= m < |cells| :: !(cells[m].x == x && cells[m].y == y)
    decreases |cells| - from
  {
    if from == |cells| then None
    else if cells[from].x == x && cells[from].y == y then Some(from)
    else FindCell(cells, x, y, from + 1)
  }

  /** On the board `createGrid` builds, the search finds exactly the cell
      `x + y * gridSize`, and nothing off the board. */
  lemma FindOnGrid(cells: seq<PCell>, x: int, y: int)
    requires WellFormed(cells)
    ensures FindCell(cells, x, y, 0) == if InBorders(x, y) then Some(IndexOf(x, y)) else None
  {
    var r := FindCell(cells, x, y, 0);
    if InBorders(x, y) {
      IndexInBorders(x, y);
      assert cells[IndexOf(x, y)].x == x && cells[IndexOf(x, y)].y == y;
      var k := r.value;
      assert k == k % GridSize + (k / GridSize) * GridSize;
    }
  }

  /** One saved record applied by the `forEach` of `restoreGameProgress`: a
      cell record with a value sets that cell's tile; a cell record without
      one, and the score record, change nothing. */
  function ApplyRecord(cells: seq<PCell>, e: Snapshot.Entry): (r: seq<PCell>)
    ensures SameFrame(r, cells)
  {
    match e
    case ScoreEntry(_) => cells
    case CellEntry(x, y, v) =>
      var found := FindCell(cells, x, y, 0);
      if found.Some? && v.Some? then cells[found.value := cells[found.value].(linkedTile := v)] else cells
  }

  function ApplyFrom(cells: seq<PCell>, snap: seq<Snapshot.Entry>, j: nat): (r: seq<PCell>)
    requires j <= |snap|
    ensures SameFrame(r, cells)
    decreases |snap| - j
  {
    if j == |snap| then cells else ApplyFrom(ApplyRecord(cells, snap[j]), snap, j + 1)
  }

  /** A restored board, or the cells alone when the last record carries no
      score (`savedProgress[savedProgress.length - 1].score` is undefined, or
      throws on an empty list). */
  datatype Loaded = Loaded(board: Board) | ScoreUnreadable(cells: seq<PCell>)

  function ScoreOf(snap: seq<Snapshot.Entry>, cells: seq<PCell>): (r: Loaded)
    ensures r.Loaded? <==> |snap| > 0 && snap[|snap| - 1].ScoreEntry?
    ensures r.Loaded? ==> r.board == Board(cells, snap[|snap| - 1].score)
    ensures r.ScoreUnreadable? ==> r.cells == cells
  {
    if |snap| > 0 && snap[|snap| - 1].ScoreEntry?
    then Loaded(Board(cells, snap[|snap| - 1].score))
    else ScoreUnreadable(cells)
  }

  /** `restoreGameProgress()`, as written: `clearBoard()` only removes the
      tiles' DOM elements, so every cell the snapshot records as empty keeps
      whatever tile it held. */
  function RestoreGameProgress(b: Board, snap: seq<Snapshot.Entry>): Loaded {
    ScoreOf(snap, ApplyFrom(b.cells, snap, 0))
  }

  /** The restore with the cells' tiles cleared first, as `resetGame` does. */
  function RestoreGameProgressFixed(b: Board, snap: seq<Snapshot.Entry>): Loaded {
    ScoreOf(snap, ApplyFrom(ClearTiles(b.cells), snap, 0))
  }

  /** Applying the records of a saved board from record `j` on sets exactly
      the cells from `j` on that held a tile, to that tile. */
  lemma {:induction false} ApplySaved(cells: seq<PCell>, b: Board, j: nat)
    requires WellFormed(cells) && WellFormed(b.cells) && j <= CellsCount + 1
    ensures var r := ApplyFrom(cells, SaveGameProgress(b), j);
      forall m | 0 <= m < CellsCount ::
        r[m].linkedTile
        == if j <= m && b.cells[m].linkedTile.Some? then b.cells[m].linkedTile else cells[m].linkedTile
    decreases CellsCount + 1 - j
  {
    var snap := SaveGameProgress(b);
    if j < CellsCount + 1 {
      var next := ApplyRecord(cells, snap[j]);
      if j < CellsCount {
        FindOnGrid(cells, b.cells[j].x, b.cells[j].y);
        IndexInBorders(j % GridSize, j / GridSize);
        assert FindCell(cells, b.cells[j].x, b.cells[j].y, 0) == Some(j);
        assert forall m | 0 <= m < CellsCount ::
          next[m].linkedTile
          == if m == j && b.cells[m].linkedTile.Some? then b.cells[m].linkedTile else cells[m].linkedTile;
      } else {
        assert next == cells;
      }
      ApplySaved(next, b, j + 1);
    }
  }

  /** Restoring as written overlays the saved tiles on the current board:
      cells saved as empty keep the tile they held before. */
  lemma RestoreOverlays(c: Board, b: Board)
    requires WellFormed(c.cells) && WellFormed(b.cells)
    ensures var r := RestoreGameProgress(c, SaveGameProgress(b));
      && r.Loaded? && r.board.score == b.score && SameFrame(r.board.cells, c.cells)
      && forall m | 0 <= m < CellsCount ::
           r.board.cells[m].linkedTile
           == if b.cells[m].linkedTile.Some? then b.cells[m].linkedTile else c.cells[m].linkedTile
  {
    ApplySaved(c.cells, b, 0);
  }

  /** Restoring with the tiles cleared first brings back exactly the saved
      tiles and score. */
  lemma RestoreFixedRoundTrip(c: Board, b: Board)
    requires WellFormed(c.cells) && WellFormed(b.cells)
    ensures var r := RestoreGameProgressFixed(c, SaveGameProgress(b));
      && r.Loaded? && r.board.score == b.score && SameFrame(r.board.cells, c.cells)
      && Values(r.board.cells) == Values(b.cells)
  {
    var cleared := ClearTiles(c.cells);
    assert SameFrame(cleared, c.cells);
    ApplySaved(cleared, b, 0);
  }

  // ---------------------------------------------------------------------
  // The handler with the checks and the merges corrected

  /** Every cell without its merge flag, once the sweep is over. */
  function ClearMarks(cells: seq<PCell>): (r: seq<PCell>)
    ensures |r| == |cells| && Unmarked(r) && Values(r) == Values(cells)
    ensures forall i | 0 <= i < |cells| :: r[i].x == cells[i].x && r[i].y == cells[i].y
  {
    seq(|cells|, i requires 0 <= i < |cells| => cells[i].(linkedTileForMerge := None))
  }

  /** A move that flags merged tiles so that none merges twice, then spawns. */
  function MoveTilesInFixed(b: Board, d: Direction, dice: Dice): (r: Board)
    requires WellFormed(b.cells) && IsDice(dice)
    ensures WellFormed(r.cells) && Unmarked(r.cells)
  {
    var s := Sweep(b, d, true);
    Board(CreateTile(ClearMarks(s.cells), MaxAttempts, dice), s.score)
  }

  /** The `keydown` listener with the offsets of the checks corrected, a
      tile spawned only when the direction is legal, and merged tiles
      flagged. */
  function KeyDownFixed(st: PState, key: Key, first: Dice, second: Dice): (r: PState)
    requires WellFormed(st.board.cells) && IsDice(first) && IsDice(second)
    ensures WellFormed(r.board.cells)
    ensures !IsMoveAnyDirectionFixed(st.board.cells) ==>
      r == PState(ResetGame(st.board, first, second), st.saved)
    ensures IsMoveAnyDirectionFixed(st.board.cells) ==>
      key.Arrow? && !IsMoveTilesFixed(st.board.cells, key.direction) ==> r == st
    ensures IsMoveAnyDirectionFixed(st.board.cells) && key.OtherKey? ==> r == st
    ensures IsMoveAnyDirectionFixed(st.board.cells) ==>
      key.Arrow? && IsMoveTilesFixed(st.board.cells, key.direction) ==>
      && Values(Sweep(st.board, key.direction, true).cells) != Values(st.board.cells)
      && r.board == MoveTilesInFixed(st.board, key.direction, first)
      && r.saved == Some(SaveGameProgress(r.board))
  {
    if !IsMoveAnyDirectionFixed(st.board.cells) then
      PState(ResetGame(st.board, first, second), st.saved)
    else
      match key
      case OtherKey => st
      case Arrow(d) =>
        if !IsMoveTilesFixed(st.board.cells, d) then st
        else
          FixedCheckIffSweepMoves(st.board, d, true);
          var b := MoveTilesInFixed(st.board, d, first);
          PState(b, Some(SaveGameProgress(b)))
  }
}
