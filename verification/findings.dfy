/** Concrete boards on which the procedural engine, as written, departs from
    what its own code evidently intends, each next to the corrected
    definition behaving as intended on the same board. */
module Findings {
  import opened Wrappers
  import opened Grids
  import opened Procedural

  /** A board of alternating 2s and 4s whose top-left cell is empty: moving
      up or left is possible, and nothing else is. */
  function Checkerboard(): (cells: seq<PCell>)
    ensures WellFormed(cells)
  {
    seq(CellsCount, i requires 0 <= i < CellsCount =>
      PCell(i % GridSize, i / GridSize,
            if i == 0 then None else Some(if (i % GridSize + i / GridSize) % 2 == 0 then 2 else 4),
            None))
  }

  /** Two neighbouring cells of the checkerboard, neither of them the empty
      one, hold different values. */
  lemma CheckerNeighbours(x: int, y: int, tx: int, ty: int)
    requires InBorders(x, y) && InBorders(tx, ty)
    requires ((tx - x == 1 || x - tx == 1) && ty == y) || ((ty - y == 1 || y - ty == 1) && tx == x)
    requires IndexOf(x, y) != 0 && IndexOf(tx, ty) != 0
    ensures var cells := Checkerboard();
      && cells[IndexOf(tx, ty)].linkedTile.Some?
      && !IsTilesMerge(cells[IndexOf(tx, ty)], cells[IndexOf(x, y)])
  {
    IndexInBorders(x, y);
    IndexInBorders(tx, ty);
  }

  lemma AsWrittenTestFails(d: Direction, n: nat)
    requires n < 12
    ensures !AsWrittenTest(Checkerboard(), d, n)
  {
    var cells := Checkerboard();
    var (x, y) := Visits(d)[n];
    var (a, b) := Offsets(d);
    IndexInBorders(x, y);
    if InBorders(x + a, y + b) && IndexOf(x, y) != 0 {
      CheckerNeighbours(x, y, x + a, y + b);
    }
  }

  /** The checks as written miss both possible moves and declare the game
      over; the corrected check for up finds the move, and the sweep up does
      change the board. */
  lemma SwappedOffsetsMissMoves()
    ensures !IsMoveAnyDirection(Checkerboard())
    ensures IsMoveTilesFixed(Checkerboard(), Up)
    ensures Values(Sweep(Board(Checkerboard(), 0), Up, false).cells) != Values(Checkerboard())
  {
    var cells := Checkerboard();
    forall d: Direction, n | 0 <= n < 12 ensures !AsWrittenTest(cells, d, n) {
      AsWrittenTestFails(d, n);
    }
    assert Movable(cells, Up, 0);
    FixedCheckIffSweepMoves(Board(cells, 0), Up, false);
  }

  /** A top row `2 2 4 _` on an otherwise empty board. */
  predicate ChainRow(cells: seq<PCell>) {
    && WellFormed(cells) && Unmarked(cells)
    && cells[0].linkedTile == Some(2)
    && cells[1].linkedTile == Some(2)
    && cells[2].linkedTile == Some(4)
    && forall m | 3 <= m < CellsCount :: cells[m].linkedTile.None?
  }

  function ChainRowCells(): (cells: seq<PCell>)
    ensures ChainRow(cells)
  {
    seq(CellsCount, i requires 0 <= i < CellsCount =>
      PCell(i % GridSize, i / GridSize,
            if i == 0 || i == 1 then Some(2) else if i == 2 then Some(4) else None,
            None))
  }

  /** From the third visit of a left sweep on, only empty cells are visited
      when nothing lies beyond the top row's first two cells. */
  lemma RestOfRowIsEmpty(b: Board, marks: bool)
    requires WellFormed(b.cells)
    requires forall m | 2 <= m < CellsCount :: b.cells[m].linkedTile.None?
    ensures SweepFrom(b, Left, 2, marks) == b
  {
    forall m | 2 <= m < 12 ensures !Movable(b.cells, Left, m) {
      var (x, y) := Visits(Left)[m];
      IndexInBorders(x, y);
    }
    StuckSweep(b, Left, 2, marks);
  }

  /** The first visit: the second 2 merges into the first. */
  lemma ChainFirstVisit(b: Board, marks: bool, b1: Board)
    requires ChainRow(b.cells)
    requires b1 == MergeTiles(b, 0, 1, marks) && WellFormed(b1.cells)
    ensures SweepFrom(b, Left, 0, marks) == SweepFrom(b1, Left, 1, marks)
  {
    assert Visits(Left)[0] == (1, 0);
    IndexInBorders(1, 0);
    IndexInBorders(0, 0);
    assert MoveTileInDirection(b, 1, 0, 0, -1, marks) == MergeTiles(b, 0, 1, marks);
  }

  /** The second visit: the 4 steps into the emptied cell, then meets the
      merged 4. */
  lemma ChainSecondVisit(b: Board, marks: bool, b2: Board)
    requires WellFormed(b.cells)
    requires b.cells[0].linkedTile == Some(4) && b.cells[1].linkedTile.None?
    requires b.cells[2].linkedTile == Some(4)
    requires WellFormed(b2.cells)
    requires b2 == MoveTileInDirection(b.(cells := MoveTile(b.cells, 2, 1)), 1, 0, 0, -1, marks)
    ensures SweepFrom(b, Left, 1, marks) == SweepFrom(b2, Left, 2, marks)
  {
    assert Visits(Left)[1] == (2, 0);
    IndexInBorders(2, 0);
    IndexInBorders(1, 0);
    assert MoveTileInDirection(b, 2, 0, 0, -1, marks)
        == MoveTileInDirection(b.(cells := MoveTile(b.cells, 2, 1)), 1, 0, 0, -1, marks);
  }

  /** The 4 now beside the merged 4: merged again unless flagged. */
  lemma ChainThirdStep(b: Board, marks: bool)
    requires WellFormed(b.cells)
    requires b.cells[0].linkedTile == Some(4) && b.cells[1].linkedTile == Some(4)
    requires b.cells[0].linkedTileForMerge.Some? <==> marks
    ensures MoveTileInDirection(b, 1, 0, 0, -1, marks) == if marks then b else MergeTiles(b, 0, 1, marks)
  {
    IndexInBorders(0, 0);
    IndexInBorders(1, 0);
  }

  /** The board after the first two steps of the left sweep: a 4 in each of
      the first two cells, the first flagged when `marks`, and a score of 4. */
  lemma ChainAfterTwoSteps(cells: seq<PCell>, marks: bool)
    requires ChainRow(cells)
    ensures var b1 := MergeTiles(Board(cells, 0), 0, 1, marks);
      var b' := b1.(cells := MoveTile(b1.cells, 2, 1));
      && WellFormed(b1.cells) && WellFormed(b'.cells)
      && b1.cells[0].linkedTile == Some(4) && b1.cells[1].linkedTile.None?
      && b1.cells[2].linkedTile == Some(4)
      && b'.cells[0].linkedTile == Some(4) && b'.cells[1].linkedTile == Some(4)
      && (b'.cells[0].linkedTileForMerge.Some? <==> marks)
      && (forall m | 2 <= m < CellsCount :: b'.cells[m].linkedTile.None?)
      && b'.score == 4
  {
  }

  lemma ChainFinalMerge(b: Board)
    requires WellFormed(b.cells) && b.score == 4
    requires b.cells[0].linkedTile == Some(4) && b.cells[1].linkedTile == Some(4)
    requires forall m | 2 <= m < CellsCount :: b.cells[m].linkedTile.None?
    ensures var r := MergeTiles(b, 0, 1, false);
      && WellFormed(r.cells) && r.score == 12 && r.cells[0].linkedTile == Some(8)
      && forall m | 1 <= m < CellsCount :: r.cells[m].linkedTile.None?
  {
  }

  /** As written, the 4 that moves next to the freshly merged 4 merges with
      it: the row becomes `8 _ _ _` and the score gains 4 + 8. */
  lemma ChainedMerge(cells: seq<PCell>)
    requires ChainRow(cells)
    ensures var r := Sweep(Board(cells, 0), Left, false);
      && r.cells[0].linkedTile == Some(8)
      && (forall m | 1 <= m < CellsCount :: r.cells[m].linkedTile.None?)
      && r.score == 12
  {
    var b0 := Board(cells, 0);
    var b1 := MergeTiles(b0, 0, 1, false);
    var b' := b1.(cells := MoveTile(b1.cells, 2, 1));
    ChainAfterTwoSteps(cells, false);
    ChainThirdStep(b', false);
    var b2 := MergeTiles(b', 0, 1, false);
    ChainFinalMerge(b');
    ChainFirstVisit(b0, false, b1);
    ChainSecondVisit(b1, false, b2);
    RestOfRowIsEmpty(b2, false);
  }

  /** With merged tiles flagged, the same row becomes `4 4 _ _` and the
      score gains 4, as in the object-oriented engine. */
  lemma FlaggedMergeHappensOnce(cells: seq<PCell>)
    requires ChainRow(cells)
    ensures var r := Sweep(Board(cells, 0), Left, true);
      && r.cells[0].linkedTile == Some(4)
      && r.cells[1].linkedTile == Some(4)
      && (forall m | 2 <= m < CellsCount :: r.cells[m].linkedTile.None?)
      && r.score == 4
  {
    var b0 := Board(cells, 0);
    var b1 := MergeTiles(b0, 0, 1, true);
    var b' := b1.(cells := MoveTile(b1.cells, 2, 1));
    ChainAfterTwoSteps(cells, true);
    ChainThirdStep(b', true);
    ChainFirstVisit(b0, true, b1);
    ChainSecondVisit(b1, true, b');
    RestOfRowIsEmpty(b', true);
  }

  /** A single 2 in the top-left corner. */
  predicate LoneTile(cells: seq<PCell>) {
    && WellFormed(cells) && Unmarked(cells)
    && cells[0].linkedTile == Some(2)
    && forall m | 1 <= m < CellsCount :: cells[m].linkedTile.None?
  }

  function LoneTileCells(): (cells: seq<PCell>)
    ensures LoneTile(cells)
  {
    seq(CellsCount, i requires 0 <= i < CellsCount =>
      PCell(i % GridSize, i / GridSize, if i == 0 then Some(2) else None, None))
  }

  /** Nothing can move up from the corner, yet pressing the up arrow as
      written spawns a tile; the corrected handler leaves the state alone. */
  lemma SpawnWithoutMove(cells: seq<PCell>, first: Dice, second: Dice)
    requires LoneTile(cells) && IsDice(first) && IsDice(second)
    ensures IsMoveAnyDirection(cells) && IsMoveAnyDirectionFixed(cells)
    ensures Sweep(Board(cells, 0), Up, false) == Board(cells, 0)
    ensures Values(KeyDown(PState(Board(cells, 0), None), Arrow(Up), first, second).board.cells)
         != Values(cells)
    ensures !IsMoveTilesFixed(cells, Up)
    ensures KeyDownFixed(PState(Board(cells, 0), None), Arrow(Up), first, second)
         == PState(Board(cells, 0), None)
  {
    IndexInBorders(0, 0);
    IndexInBorders(1, 0);
    IndexInBorders(0, 1);
    assert Visits(Down)[2] == (0, 0);
    assert AsWrittenTest(cells, Down, 2);
    assert Movable(cells, Down, 2);
    forall m | 0 <= m < 12 ensures !Movable(cells, Up, m) {
      var (x, y) := Visits(Up)[m];
      IndexInBorders(x, y);
    }
    StuckSweep(Board(cells, 0), Up, 0, false);
    assert cells[1].linkedTile.None?;
    var i := CreatedAt(cells, MaxAttempts, first);
    var r := KeyDown(PState(Board(cells, 0), None), Arrow(Up), first, second);
    assert Values(r.board.cells)[i] != Values(cells)[i];
  }

  /** A board saved with no tiles at all, restored as written onto the
      corner board the page starts with, keeps the corner tile; the
      corrected restore brings back the empty board. */
  lemma RestoreKeepsStaleTile(cells: seq<PCell>)
    requires LoneTile(cells)
    ensures CreateGrid()[0].linkedTile.None?
    ensures var r := RestoreGameProgress(Board(cells, 0), SaveGameProgress(Board(CreateGrid(), 0)));
      r.Loaded? && r.board.cells[0].linkedTile == Some(2)
    ensures var r := RestoreGameProgressFixed(Board(cells, 0), SaveGameProgress(Board(CreateGrid(), 0)));
      r.Loaded? && Values(r.board.cells) == Values(CreateGrid())
  {
    RestoreOverlays(Board(cells, 0), Board(CreateGrid(), 0));
    RestoreFixedRoundTrip(Board(cells, 0), Board(CreateGrid(), 0));
  }
}
