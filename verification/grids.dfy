/** The 4×4 board of the object-oriented engine (`Grid` in src/grid.ts): its
    sixteen cells and the four orderings of them into groups, one per
    movement direction. A group is a sequence of indices into the cells, as
    the source's groups hold references to the board's own cell objects. */
module Grids {
  import opened Wrappers
  import opened Cells
  import opened Chance

  const GridSize: nat := 4
  const CellsCount: nat := 16

  datatype Direction = Up | Down | Left | Right

  /** A key press: one of the four arrow keys, or anything else. */
  datatype Key = Arrow(direction: Direction) | OtherKey

  datatype Grid = Grid(
    cells: seq<Cell>,
    byColumn: seq<seq<nat>>,
    byReversedColumn: seq<seq<nat>>,
    byRow: seq<seq<nat>>,
    byReversedRow: seq<seq<nat>>)

  /** The cell at column `x`, row `y` sits at index `x + y * 4`. */
  function IndexOf(x: nat, y: nat): nat {
    x + y * GridSize
  }

  /** Cell `i` has coordinates `(i mod 4, i div 4)`. */
  predicate WellPlaced(cells: seq<Cell>) {
    && |cells| == CellsCount
    && forall i | 0 <= i < CellsCount :: cells[i].x == i % GridSize && cells[i].y == i / GridSize
  }

  /** The index of a cell on the board gives back its coordinates. */
  lemma IndexCoordinates(x: nat, y: nat)
    requires x < GridSize && y < GridSize
    ensures IndexOf(x, y) < CellsCount
    ensures IndexOf(x, y) % GridSize == x && IndexOf(x, y) / GridSize == y
  {
    if y == 0 {
    } else if y == 1 {
    } else if y == 2 {
    } else {
    }
  }

  lemma CoordinatesIdentifyCells(cells: seq<Cell>, i: nat, j: nat)
    requires WellPlaced(cells) && i < CellsCount && j < CellsCount
    ensures cells[i].x == cells[j].x && cells[i].y == cells[j].y <==> i == j
  {
  }

  /** The constructor's loop: sixteen fresh cells. */
  function NewCells(): (cells: seq<Cell>)
    ensures WellPlaced(cells)
    ensures forall i | 0 <= i < |cells| ::
      IsEmpty(cells[i]) && !HasTileForMerge(cells[i]) && cells[i].mergedScore == 0
  {
    seq(CellsCount, i requires 0 <= i < CellsCount => NewCell(i % GridSize, i / GridSize))
  }

  // ---------------------------------------------------------------------
  // Grouping

  /** Which coordinate names the group a cell joins, and which one its place
      in that group. */
  datatype Axis = Columns | Rows

  function GroupKey(c: Cell, axis: Axis): int {
    if axis == Columns then c.x else c.y
  }

  function GroupSlot(c: Cell, axis: Axis): int {
    if axis == Columns then c.y else c.x
  }

  predicate Shaped(groups: seq<seq<nat>>) {
    |groups| == GridSize && forall k | 0 <= k < |groups| :: |groups[k]| == GridSize
  }

  /** Cells `0..i-1` have been written to the place their coordinates name. */
  predicate Written(cells: seq<Cell>, axis: Axis, acc: seq<seq<nat>>, i: nat)
    requires WellPlaced(cells) && Shaped(acc) && i <= CellsCount
  {
    forall j | 0 <= j < i ::
      acc[GroupKey(cells[j], axis)][GroupSlot(cells[j], axis)] == j
  }

  /** The `reduce` of `groupCellsByColumn` / `groupCellsByRow`: each cell in
      turn is stored in the group its key coordinate names, at the place its
      other coordinate names. */
  function GroupFrom(cells: seq<Cell>, axis: Axis, i: nat, acc: seq<seq<nat>>): (r: seq<seq<nat>>)
    requires WellPlaced(cells) && Shaped(acc) && i <= CellsCount
    ensures Shaped(r)
    ensures Written(cells, axis, acc, i) ==> Written(cells, axis, r, CellsCount)
    decreases CellsCount - i
  {
    if i == CellsCount then acc
    else
      var k := GroupKey(cells[i], axis);
      var p := GroupSlot(cells[i], axis);
      var row: seq<nat> := acc[k][p := i];
      var acc' := acc[k := row];
      assert Written(cells, axis, acc, i) ==> Written(cells, axis, acc', i + 1) by {
        if Written(cells, axis, acc, i) {
          forall j | 0 <= j < i + 1
            ensures acc'[GroupKey(cells[j], axis)][GroupSlot(cells[j], axis)] == j
          {
            if j < i {
              CoordinatesIdentifyCells(cells, i, j);
            }
          }
        }
      }
      GroupFrom(cells, axis, i + 1, acc')
  }

  /** Once every cell is written, each place of each group names the cell
      whose coordinates are that group and that place. */
  lemma WrittenNamesCells(cells: seq<Cell>, axis: Axis, groups: seq<seq<nat>>)
    requires WellPlaced(cells) && Shaped(groups) && Written(cells, axis, groups, CellsCount)
    ensures forall k, p | 0 <= k < GridSize && 0 <= p < GridSize ::
      && groups[k][p] < CellsCount
      && GroupKey(cells[groups[k][p]], axis) == k
      && GroupSlot(cells[groups[k][p]], axis) == p
  {
    forall k, p | 0 <= k < GridSize && 0 <= p < GridSize
      ensures groups[k][p] < CellsCount
      ensures GroupKey(cells[groups[k][p]], axis) == k
      ensures GroupSlot(cells[groups[k][p]], axis) == p
    {
      var j := if axis == Columns then IndexOf(k, p) else IndexOf(p, k);
      if axis == Columns { IndexCoordinates(k, p); } else { IndexCoordinates(p, k); }
      assert GroupKey(cells[j], axis) == k && GroupSlot(cells[j], axis) == p;
      assert groups[k][p] == j;
    }
  }

  /** `groupCellsByColumn()` (axis `Columns`) and `groupCellsByRow()` (axis
      `Rows`): group `k` holds, at place `p`, the cell whose key coordinate is
      `k` and whose other coordinate is `p`. */
  function GroupCells(cells: seq<Cell>, axis: Axis): (groups: seq<seq<nat>>)
    requires WellPlaced(cells)
    ensures Shaped(groups)
    ensures forall k, p | 0 <= k < GridSize && 0 <= p < GridSize ::
      && groups[k][p] < CellsCount
      && GroupKey(cells[groups[k][p]], axis) == k
      && GroupSlot(cells[groups[k][p]], axis) == p
  {
    var blank := seq(GridSize, _ => seq(GridSize, _ => 0));
    var groups := GroupFrom(cells, axis, 0, blank);
    WrittenNamesCells(cells, axis, groups);
    groups
  }

  function Reverse<T>(s: seq<T>): (r: seq<T>)
    ensures |r| == |s| && forall p | 0 <= p < |s| :: r[p] == s[|s| - 1 - p]
  {
    seq(|s|, p requires 0 <= p < |s| => s[|s| - 1 - p])
  }

  /** The constructor's `[...column].reverse()` over every group. */
  function ReverseEach(groups: seq<seq<nat>>): (r: seq<seq<nat>>)
    ensures |r| == |groups| && forall k | 0 <= k < |groups| :: r[k] == Reverse(groups[k])
  {
    seq(|groups|, k requires 0 <= k < |groups| => Reverse(groups[k]))
  }

  /** The layout each direction walks: group `k` place `p` is the cell `p`
      steps from the edge the tiles move toward, in column (vertical moves) or
      row (horizontal moves) `k`. */
  function Layout(d: Direction): (groups: seq<seq<nat>>)
    ensures Shaped(groups)
  {
    seq(GridSize, k requires 0 <= k < GridSize =>
      seq(GridSize, p requires 0 <= p < GridSize =>
        match d
        case Up => IndexOf(k, p)
        case Down => IndexOf(k, GridSize - 1 - p)
        case Left => IndexOf(p, k)
        case Right => IndexOf(GridSize - 1 - p, k)))
  }

  /** On a well-placed board, `groupCellsByColumn()` yields the columns top
      to bottom and `groupCellsByRow()` the rows left to right. */
  lemma GroupCellsIsLayout(cells: seq<Cell>)
    requires WellPlaced(cells)
    ensures GroupCells(cells, Columns) == Layout(Up)
    ensures GroupCells(cells, Rows) == Layout(Left)
  {
    var byColumn := GroupCells(cells, Columns);
    forall k | 0 <= k < GridSize ensures byColumn[k] == Layout(Up)[k] {
      forall p | 0 <= p < GridSize ensures byColumn[k][p] == Layout(Up)[k][p] {
        CoordinatesIdentifyCells(cells, byColumn[k][p], IndexOf(k, p));
      }
    }
    var byRow := GroupCells(cells, Rows);
    forall k | 0 <= k < GridSize ensures byRow[k] == Layout(Left)[k] {
      forall p | 0 <= p < GridSize ensures byRow[k][p] == Layout(Left)[k][p] {
        CoordinatesIdentifyCells(cells, byRow[k][p], IndexOf(p, k));
      }
    }
  }

  /** The reversed groupings are the exact reversals of the plain ones. */
  lemma ReversedLayouts()
    ensures ReverseEach(Layout(Up)) == Layout(Down)
    ensures ReverseEach(Layout(Left)) == Layout(Right)
  {
    forall k | 0 <= k < GridSize ensures ReverseEach(Layout(Up))[k] == Layout(Down)[k] {
      assert Reverse(Layout(Up)[k]) == Layout(Down)[k];
    }
    forall k | 0 <= k < GridSize ensures ReverseEach(Layout(Left))[k] == Layout(Right)[k] {
      assert Reverse(Layout(Left)[k]) == Layout(Right)[k];
    }
  }

  /** The constructor: sixteen empty cells and their four groupings. */
  function NewGrid(): (g: Grid)
    ensures Valid(g)
    ensures forall i | 0 <= i < |g.cells| ::
      IsEmpty(g.cells[i]) && !HasTileForMerge(g.cells[i]) && g.cells[i].mergedScore == 0
  {
    var cells := NewCells();
    var byColumn := GroupCells(cells, Columns);
    var byRow := GroupCells(cells, Rows);
    GroupCellsIsLayout(cells);
    ReversedLayouts();
    Grid(cells, byColumn, ReverseEach(byColumn), byRow, ReverseEach(byRow))
  }

  /** A board as the constructor leaves it, up to the tiles in its cells. */
  predicate Valid(g: Grid) {
    && WellPlaced(g.cells)
    && g.byColumn == Layout(Up)
    && g.byReversedColumn == Layout(Down)
    && g.byRow == Layout(Left)
    && g.byReversedRow == Layout(Right)
  }

  /** The groups `moveUp` / `canMoveUp` and their siblings hand on. */
  function GroupsFor(g: Grid, d: Direction): seq<seq<nat>> {
    match d
    case Up => g.byColumn
    case Down => g.byReversedColumn
    case Left => g.byRow
    case Right => g.byReversedRow
  }

  /** Every direction walks its groups from the edge the tiles move toward:
      up takes columns top to bottom, down columns bottom to top, left rows
      left to right, right rows right to left. */
  lemma DirectionMapping(g: Grid, d: Direction, k: nat, p: nat)
    requires Valid(g) && k < GridSize && p < GridSize
    ensures GroupsFor(g, d)[k][p] < CellsCount
    ensures var c := g.cells[GroupsFor(g, d)[k][p]];
      match d
      case Up => c.x == k && c.y == p
      case Down => c.x == k && c.y == GridSize - 1 - p
      case Left => c.x == p && c.y == k
      case Right => c.x == GridSize - 1 - p && c.y == k
  {
  }

  /** A family of groups that covers every cell exactly once. */
  predicate Partition(groups: seq<seq<nat>>) {
    && Shaped(groups)
    && (forall k, p | 0 <= k < GridSize && 0 <= p < GridSize :: groups[k][p] < CellsCount)
    && (forall k, p, k', p' |
          0 <= k < GridSize && 0 <= p < GridSize && 0 <= k' < GridSize && 0 <= p' < GridSize ::
          groups[k][p] == groups[k'][p'] ==> k == k' && p == p')
    && (forall i | 0 <= i < CellsCount :: Covers(groups, i))
  }

  /** Some group holds cell `i`. */
  predicate Covers(groups: seq<seq<nat>>, i: nat)
    requires Shaped(groups)
  {
    exists k, p | 0 <= k < GridSize && 0 <= p < GridSize :: groups[k][p] == i
  }

  /** Each of the four groupings partitions the sixteen cells. */
  lemma LayoutIsPartition(d: Direction)
    ensures Partition(Layout(d))
  {
    var groups := Layout(d);
    forall k, p | 0 <= k < GridSize && 0 <= p < GridSize
      ensures groups[k][p] < CellsCount
      ensures groups[k][p] == IndexOf(LayoutX(d, k, p), LayoutY(d, k, p))
    {
      LayoutAt(d, k, p);
    }
    forall k, p, k', p' |
      0 <= k < GridSize && 0 <= p < GridSize && 0 <= k' < GridSize && 0 <= p' < GridSize
      ensures groups[k][p] == groups[k'][p'] ==> k == k' && p == p'
    {
      if groups[k][p] == groups[k'][p'] {
        IndexOfInjective(LayoutX(d, k, p), LayoutY(d, k, p), LayoutX(d, k', p'), LayoutY(d, k', p'));
        LayoutPlaceUnique(d, k, p, k', p');
      }
    }
    forall i | 0 <= i < CellsCount
      ensures Covers(groups, i)
    {
      LayoutCovers(d, i);
    }
  }

  /** Cell `i` has a place in every layout. */
  lemma LayoutCovers(d: Direction, i: nat)
    requires i < CellsCount
    ensures Covers(Layout(d), i)
  {
    var groups := Layout(d);
    var x, y := i % GridSize, i / GridSize;
    match d
    case Up => assert groups[x][y] == i;
    case Down => assert groups[x][GridSize - 1 - y] == i;
    case Left => assert groups[y][x] == i;
    case Right => assert groups[y][GridSize - 1 - x] == i;
  }

  /** The column of place `p` in group `k` of a layout. */
  function LayoutX(d: Direction, k: nat, p: nat): nat
    requires k < GridSize && p < GridSize
  {
    match d
    case Up => k
    case Down => k
    case Left => p
    case Right => GridSize - 1 - p
  }

  /** The row of place `p` in group `k` of a layout. */
  function LayoutY(d: Direction, k: nat, p: nat): nat
    requires k < GridSize && p < GridSize
  {
    match d
    case Up => p
    case Down => GridSize - 1 - p
    case Left => k
    case Right => k
  }

  /** Place `p` of group `k` is the cell at `(LayoutX, LayoutY)`. */
  lemma LayoutAt(d: Direction, k: nat, p: nat)
    requires k < GridSize && p < GridSize
    ensures Layout(d)[k][p] == IndexOf(LayoutX(d, k, p), LayoutY(d, k, p)) < CellsCount
  {
  }

  /** Two on-grid coordinates with one index are the same coordinates. */
  lemma IndexOfInjective(x: nat, y: nat, x': nat, y': nat)
    requires x < GridSize && x' < GridSize && IndexOf(x, y) == IndexOf(x', y')
    ensures x == x' && y == y'
  {
  }

  /** Distinct layout places are distinct coordinates: the directions name
      each place by its group and position. */
  lemma LayoutPlaceUnique(d: Direction, k: nat, p: nat, k': nat, p': nat)
    requires k < GridSize && p < GridSize && k' < GridSize && p' < GridSize
    requires LayoutX(d, k, p) == LayoutX(d, k', p') && LayoutY(d, k, p) == LayoutY(d, k', p')
    ensures k == k' && p == p'
  {
  }

  // ---------------------------------------------------------------------
  // Clearing and choosing cells

  /** `clearGrid()`: every cell loses its settled tile. */
  function ClearGrid(g: Grid): (r: Grid)
    ensures |r.cells| == |g.cells|
    ensures forall i | 0 <= i < |g.cells| :: IsEmpty(r.cells[i])
    ensures forall i | 0 <= i < |g.cells| :: r.cells[i] == g.cells[i].(linkedTile := None)
    ensures r == g.(cells := r.cells)
  {
    g.(cells := seq(|g.cells|, i requires 0 <= i < |g.cells| => RemoveLinkedTile(g.cells[i])))
  }

  /** `cells.filter(cell => cell.isEmpty())` from index `i` on, as indices. */
  function EmptyFrom(cells: seq<Cell>, i: nat): (r: seq<nat>)
    requires i <= |cells|
    ensures forall j | 0 <= j < |r| :: i <= r[j] < |cells| && IsEmpty(cells[r[j]])
    ensures forall m | i <= m < |cells| :: IsEmpty(cells[m]) ==> m in r
    decreases |cells| - i
  {
    if i == |cells| then []
    else (if IsEmpty(cells[i]) then [i] else []) + EmptyFrom(cells, i + 1)
  }

  /** `getRandomEmptyCell()`: an empty cell picked by `roll`, or `null`
      exactly when the board has no empty cell. */
  function RandomEmptyCell(g: Grid, roll: real): (r: Option<nat>)
    requires IsRoll(roll)
    ensures r.Some? <==> exists i | 0 <= i < |g.cells| :: IsEmpty(g.cells[i])
    ensures r.Some? ==> r.value < |g.cells| && IsEmpty(g.cells[r.value])
  {
    var empties := EmptyFrom(g.cells, 0);
    var k := PickIndex(|empties|, roll);
    if k < |empties| then Some(empties[k]) else None
  }
}
