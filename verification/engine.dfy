/** The move cycle of the object-oriented engine (oopJS/script.js, and
    src/script.ts with the groupings read from the grid): `moveTiles`,
    `canMove`, `handleInput` and `resetGame`. Each group of the chosen
    direction is processed in turn by `Slide.MoveTilesInGroup`; only after
    every group has been processed are the pending merges committed, cell by
    cell in board order. */
module Engine {
  import opened Wrappers
  import opened Scores
  import opened Cells
  import opened Pile
  import opened Slide
  import opened Grids
  import opened Chance
  import opened Snapshot

  // ---------------------------------------------------------------------
  // Groups as views of the board

  predicate IndicesIn(group: seq<nat>, n: nat) {
    forall p | 0 <= p < |group| :: group[p] < n
  }

  predicate Distinct(group: seq<nat>) {
    forall p, q | 0 <= p < q < |group| :: group[p] != group[q]
  }

  /** Groups whose indices are in range and no two of which share a cell. */
  predicate Family(groups: seq<seq<nat>>, n: nat) {
    && (forall k | 0 <= k < |groups| :: IndicesIn(groups[k], n) && Distinct(groups[k]))
    && (forall k, k', p, p' |
          0 <= k < k' < |groups| && 0 <= p < |groups[k]| && 0 <= p' < |groups[k']| ::
          groups[k][p] != groups[k'][p'])
  }

  lemma PartitionIsFamily(groups: seq<seq<nat>>)
    requires Partition(groups)
    ensures Family(groups, CellsCount)
  {
  }

  lemma FamilyTail(groups: seq<seq<nat>>, n: nat)
    requires Family(groups, n) && |groups| > 0
    ensures Family(groups[1..], n)
  {
    forall k, k', p, p' |
      0 <= k < k' < |groups[1..]| && 0 <= p < |groups[1..][k]| && 0 <= p' < |groups[1..][k']|
      ensures groups[1..][k][p] != groups[1..][k'][p']
    {
      assert groups[1..][k] == groups[k + 1] && groups[1..][k'] == groups[k' + 1];
    }
  }

  /** The cells of a group, in the group's order. */
  function Gather(cells: seq<Cell>, group: seq<nat>): (view: seq<Cell>)
    requires IndicesIn(group, |cells|)
    ensures |view| == |group|
    ensures forall p | 0 <= p < |group| :: view[p] == cells[group[p]]
  {
    seq(|group|, p requires 0 <= p < |group| => cells[group[p]])
  }

  /** Writes a processed group back to the cells it came from. */
  function Scatter(cells: seq<Cell>, group: seq<nat>, view: seq<Cell>): (r: seq<Cell>)
    requires IndicesIn(group, |cells|) && Distinct(group) && |view| == |group|
    ensures |r| == |cells|
    ensures forall p | 0 <= p < |group| :: r[group[p]] == view[p]
    ensures forall i | 0 <= i < |cells| && i !in group :: r[i] == cells[i]
    decreases |group|
  {
    if |group| == 0 then cells
    else
      var r := Scatter(cells[group[0] := view[0]], group[1..], view[1..]);
      assert forall p | 1 <= p < |group| :: group[p] == group[1..][p - 1];
      r
  }

  /** `groupedCells.forEach(group => moveTilesInGroup(group))`. */
  function MoveGroups(cells: seq<Cell>, groups: seq<seq<nat>>): (r: seq<Cell>)
    requires Family(groups, |cells|)
    ensures |r| == |cells|
    decreases |groups|
  {
    if |groups| == 0 then cells
    else
      var moved := MoveTilesInGroup(Gather(cells, groups[0]));
      FamilyTail(groups, |cells|);
      MoveGroups(Scatter(cells, groups[0], moved), groups[1..])
  }

  predicate Untouched(groups: seq<seq<nat>>, i: nat) {
    forall k | 0 <= k < |groups| :: i !in groups[k]
  }

  /** Each group's cells end up as that group's own loop left them, and cells
      outside every group are untouched: the groups do not interfere. */
  lemma {:induction false} MoveGroupsIsGroupwise(cells: seq<Cell>, groups: seq<seq<nat>>)
    requires Family(groups, |cells|)
    ensures forall k, p | 0 <= k < |groups| && 0 <= p < |groups[k]| ::
      MoveGroups(cells, groups)[groups[k][p]] == MoveTilesInGroup(Gather(cells, groups[k]))[p]
    ensures forall i | 0 <= i < |cells| && Untouched(groups, i) ::
      MoveGroups(cells, groups)[i] == cells[i]
    decreases |groups|
  {
    if |groups| > 0 {
      var g0 := groups[0];
      var moved := MoveTilesInGroup(Gather(cells, g0));
      var c1 := Scatter(cells, g0, moved);
      var rest := groups[1..];
      FamilyTail(groups, |cells|);
      MoveGroupsIsGroupwise(c1, rest);
      var r := MoveGroups(cells, groups);
      assert r == MoveGroups(c1, rest);
      forall k, p | 0 <= k < |groups| && 0 <= p < |groups[k]|
        ensures r[groups[k][p]] == MoveTilesInGroup(Gather(cells, groups[k]))[p]
      {
        if k == 0 {
          HeadLeavesTail(groups, |cells|, p);
        } else {
          TailMissesHead(cells, groups, k, moved);
          assert rest[k - 1] == groups[k];
        }
      }
      forall i | 0 <= i < |cells| && Untouched(groups, i)
        ensures r[i] == cells[i]
      {
        UntouchedTail(groups, i);
      }
    }
  }

  /** The first group's cells belong to no later group. */
  lemma HeadLeavesTail(groups: seq<seq<nat>>, n: nat, p: nat)
    requires Family(groups, n) && 0 < |groups| && p < |groups[0]|
    ensures Untouched(groups[1..], groups[0][p])
  {
    forall k' | 0 <= k' < |groups| - 1 ensures groups[0][p] !in groups[1..][k'] {
      assert groups[1..][k'] == groups[k' + 1];
    }
  }

  /** Writing the first group back leaves every later group's view as it was. */
  lemma TailMissesHead(cells: seq<Cell>, groups: seq<seq<nat>>, k: nat, moved: seq<Cell>)
    requires Family(groups, |cells|) && 0 < k < |groups| && |moved| == |groups[0]|
    ensures Gather(Scatter(cells, groups[0], moved), groups[k]) == Gather(cells, groups[k])
  {
    forall q | 0 <= q < |groups[k]| ensures groups[k][q] !in groups[0] { }
  }

  /** A cell in no group is in neither the first group nor the later ones. */
  lemma UntouchedTail(groups: seq<seq<nat>>, i: nat)
    requires 0 < |groups| && Untouched(groups, i)
    ensures i !in groups[0] && Untouched(groups[1..], i)
  {
    forall k' | 0 <= k' < |groups| - 1 ensures i !in groups[1..][k'] {
      assert groups[1..][k'] == groups[k' + 1];
    }
  }

  // ---------------------------------------------------------------------
  // Committing the merges

  /** A pending tile always sits on a settled one, as `mergeTiles` needs. */
  predicate Backed(c: Cell) {
    HasTileForMerge(c) ==> !IsEmpty(c)
  }

  /** The sum of the merged values of the cells from `i` on. */
  function MergeGain(cells: seq<Cell>, i: nat): nat
    requires i <= |cells|
    decreases |cells| - i
  {
    if i == |cells| then 0
    else
      (if HasTileForMerge(cells[i]) && !IsEmpty(cells[i])
       then cells[i].linkedTile.value.value + cells[i].linkedTileForMerge.value.value
       else 0)
      + MergeGain(cells, i + 1)
  }

  /** The gain ahead of `i` depends only on the cells ahead of `i`. */
  lemma {:induction false} MergeGainAhead(a: seq<Cell>, b: seq<Cell>, i: nat)
    requires i <= |a| == |b| && a[i..] == b[i..]
    ensures MergeGain(a, i) == MergeGain(b, i)
    decreases |a| - i
  {
    if i < |a| {
      assert a[i] == a[i..][0] && b[i] == b[i..][0];
      assert a[i + 1..] == a[i..][1..] && b[i + 1..] == b[i..][1..];
      MergeGainAhead(a, b, i + 1);
    }
  }

  datatype Outcome = Outcome(cells: seq<Cell>, score: Score)

  /** `grid.cells.forEach(cell => cell.hasTileForMerge() && cell.mergeTiles())`
      from cell `i` on. */
  function CommitFrom(cells: seq<Cell>, s: Score, i: nat): (r: Outcome)
    requires i <= |cells| && forall m | i <= m < |cells| :: Backed(cells[m])
    ensures |r.cells| == |cells|
    ensures forall m | 0 <= m < i :: r.cells[m] == cells[m]
    ensures forall m | i <= m < |cells| ::
      && ValueOf(r.cells[m].linkedTile) == Committed(Content(cells[m]))
      && !HasTileForMerge(r.cells[m])
      && r.cells[m].x == cells[m].x && r.cells[m].y == cells[m].y
      && (TilesPlaced(cells[m]) ==> TilesPlaced(r.cells[m]))
      && (!HasTileForMerge(cells[m]) ==> r.cells[m] == cells[m])
    ensures r.score.points == s.points + MergeGain(cells, i)
    decreases |cells| - i
  {
    if i == |cells| then Outcome(cells, s)
    else if HasTileForMerge(cells[i]) then
      assert Backed(cells[i]);
      var m := MergeTiles(cells[i], s);
      MergeGainAhead(cells, cells[i := m.cell], i + 1);
      CommitFrom(cells[i := m.cell], m.score, i + 1)
    else CommitFrom(cells, s, i + 1)
  }

  /** A partition of the sixteen cells into four groups of four, over a board
      with no merge pending: what `moveTiles` and `canMove` are handed. */
  predicate Ready(cells: seq<Cell>, groups: seq<seq<nat>>) {
    |cells| == CellsCount && Partition(groups) && Quiescent(cells)
  }

  lemma ReadyViews(cells: seq<Cell>, groups: seq<seq<nat>>)
    requires Ready(cells, groups)
    ensures Family(groups, |cells|)
    ensures forall k | 0 <= k < GridSize :: Quiescent(Gather(cells, groups[k]))
  {
    PartitionIsFamily(groups);
  }

  /** Where cell `i` sits among the groups. */
  lemma Locate(groups: seq<seq<nat>>, i: nat) returns (k: nat, p: nat)
    requires Partition(groups) && i < CellsCount
    ensures k < GridSize && p < GridSize && groups[k][p] == i
  {
    assert Covers(groups, i);
    k, p :| 0 <= k < GridSize && 0 <= p < GridSize && groups[k][p] == i;
  }

  lemma MovedCellsCoherent(cells: seq<Cell>, groups: seq<seq<nat>>)
    requires Ready(cells, groups)
    ensures Family(groups, |cells|)
    ensures forall i | 0 <= i < CellsCount :: Coherent(MoveGroups(cells, groups)[i])
  {
    ReadyViews(cells, groups);
    MoveGroupsIsGroupwise(cells, groups);
    forall i | 0 <= i < CellsCount
      ensures Coherent(MoveGroups(cells, groups)[i])
    {
      var k, p := Locate(groups, i);
      MovedGroupIsPacked(Gather(cells, groups[k]));
    }
  }

  /** `moveTiles(groupedCells)`: every group moved, then every pending merge
      committed in board order. */
  function MoveAlong(cells: seq<Cell>, groups: seq<seq<nat>>, s: Score): (r: Outcome)
    requires Ready(cells, groups)
    ensures |r.cells| == CellsCount && Quiescent(r.cells)
  {
    MovedCellsCoherent(cells, groups);
    CommitFrom(MoveGroups(cells, groups), s, 0)
  }

  /** `canMove(groupedCells)`: some group can move. */
  predicate CanMoveAlong(cells: seq<Cell>, groups: seq<seq<nat>>)
    requires Ready(cells, groups)
  {
    ReadyViews(cells, groups);
    exists k | 0 <= k < GridSize :: CanMoveInGroup(Gather(cells, groups[k]))
  }

  /** After a move, each cell holds the committed value its group's loop left
      there. */
  lemma MoveAlongIsGroupwise(cells: seq<Cell>, groups: seq<seq<nat>>, s: Score, k: nat, p: nat)
    requires Ready(cells, groups) && k < GridSize && p < GridSize
    ensures Family(groups, |cells|)
    ensures ValueOf(MoveAlong(cells, groups, s).cells[groups[k][p]].linkedTile)
        == CommittedLine(MoveTilesInGroup(Gather(cells, groups[k])))[p]
  {
    ReadyViews(cells, groups);
    MoveGroupsIsGroupwise(cells, groups);
  }

  /** The slot the reference pile of its group assigns to cell `i` once the
      groups have moved. */
  ghost function MovedSlot(cells: seq<Cell>, groups: seq<seq<nat>>, i: nat): Slots
    requires Ready(cells, groups) && i < CellsCount
  {
    ReadyViews(cells, groups);
    assert Covers(groups, i);
    var k, p :| 0 <= k < GridSize && 0 <= p < GridSize && groups[k][p] == i;
    Pad(Stack(SettledValues(Gather(cells, groups[k]))), GridSize)[p]
  }

  /** The points the reference piles score from cell `i` on. */
  ghost function PileGain(cells: seq<Cell>, groups: seq<seq<nat>>, i: nat): nat
    requires Ready(cells, groups) && i <= CellsCount
    decreases CellsCount - i
  {
    if i == CellsCount then 0
    else SlotGain(MovedSlot(cells, groups, i)) + PileGain(cells, groups, i + 1)
  }

  /** The merges committed after the group loops score exactly what the
      reference piles score. */
  lemma {:induction false} MoveGainIsPileGain(cells: seq<Cell>, groups: seq<seq<nat>>, i: nat)
    requires Ready(cells, groups) && i <= CellsCount
    ensures Family(groups, |cells|)
    ensures MergeGain(MoveGroups(cells, groups), i) == PileGain(cells, groups, i)
    decreases CellsCount - i
  {
    ReadyViews(cells, groups);
    if i < CellsCount {
      MoveGainIsPileGain(cells, groups, i + 1);
      MovedCellGain(cells, groups, i);
    }
  }

  lemma MovedSlotAt(cells: seq<Cell>, groups: seq<seq<nat>>, k: nat, p: nat)
    requires Ready(cells, groups) && k < GridSize && p < GridSize
    ensures Family(groups, |cells|)
    ensures MovedSlot(cells, groups, groups[k][p])
        == Pad(Stack(SettledValues(Gather(cells, groups[k]))), GridSize)[p]
  {
    ReadyViews(cells, groups);
  }

  lemma MovedCellGain(cells: seq<Cell>, groups: seq<seq<nat>>, i: nat)
    requires Ready(cells, groups) && i < CellsCount
    ensures Family(groups, |cells|)
    ensures var c := MoveGroups(cells, groups)[i];
      (if HasTileForMerge(c) && !IsEmpty(c)
       then c.linkedTile.value.value + c.linkedTileForMerge.value.value else 0)
      == SlotGain(MovedSlot(cells, groups, i))
  {
    MovedContent(cells, groups, i);
    CellGain(MoveGroups(cells, groups)[i], MovedSlot(cells, groups, i));
  }

  /** After the group loops, each cell holds its reference slot. */
  lemma MovedContent(cells: seq<Cell>, groups: seq<seq<nat>>, i: nat)
    requires Ready(cells, groups) && i < CellsCount
    ensures Family(groups, |cells|)
    ensures Content(MoveGroups(cells, groups)[i]) == MovedSlot(cells, groups, i)
  {
    ReadyViews(cells, groups);
    var k, p := Locate(groups, i);
    MovedSlotAt(cells, groups, k, p);
    var moved := MoveTilesInGroup(Gather(cells, groups[k]));
    MoveGroupsIsGroupwise(cells, groups);
    assert MoveGroups(cells, groups)[i] == moved[p];
    MoveTilesInGroupIsStack(Gather(cells, groups[k]));
    assert Contents(moved)[p] == Content(moved[p]);
  }

  lemma CellGain(c: Cell, slot: Slots)
    requires Content(c) == slot
    ensures (if HasTileForMerge(c) && !IsEmpty(c)
             then c.linkedTile.value.value + c.linkedTileForMerge.value.value else 0)
      == SlotGain(slot)
  {
  }

  /** The points a move adds are the merges of the reference piles. */
  lemma MoveAlongScores(cells: seq<Cell>, groups: seq<seq<nat>>, s: Score)
    requires Ready(cells, groups)
    ensures MoveAlong(cells, groups, s).score.points == s.points + PileGain(cells, groups, 0)
  {
    MovedCellsCoherent(cells, groups);
    MoveGainIsPileGain(cells, groups, 0);
  }

  lemma {:induction false} NoMergeGain(cells: seq<Cell>, i: nat)
    requires i <= |cells| && Quiescent(cells)
    ensures MergeGain(cells, i) == 0
    decreases |cells| - i
  {
    if i < |cells| {
      NoMergeGain(cells, i + 1);
    }
  }

  /** With no group able to move, the group loops leave every cell alone. */
  lemma StuckGroupsStayPut(cells: seq<Cell>, groups: seq<seq<nat>>)
    requires Ready(cells, groups) && !CanMoveAlong(cells, groups)
    ensures Family(groups, |cells|)
    ensures MoveGroups(cells, groups) == cells
  {
    ReadyViews(cells, groups);
    var moved := MoveGroups(cells, groups);
    forall i | 0 <= i < CellsCount ensures moved[i] == cells[i] {
      StuckCellStays(cells, groups, i);
    }
  }

  /** One cell of a board no group can move, left alone by the group loops. */
  lemma StuckCellStays(cells: seq<Cell>, groups: seq<seq<nat>>, i: nat)
    requires Ready(cells, groups) && !CanMoveAlong(cells, groups) && i < CellsCount
    ensures Family(groups, |cells|)
    ensures MoveGroups(cells, groups)[i] == cells[i]
  {
    ReadyViews(cells, groups);
    MoveGroupsIsGroupwise(cells, groups);
    var k, p := Locate(groups, i);
    IllegalGroupMoveIsNoOp(Gather(cells, groups[k]));
  }

  /** With no group able to move, nothing changes: every cell and the score
      stay as they were. */
  lemma StuckMoveIsNoOp(cells: seq<Cell>, groups: seq<seq<nat>>, s: Score)
    requires Ready(cells, groups) && !CanMoveAlong(cells, groups)
    ensures MoveAlong(cells, groups, s) == Outcome(cells, s)
  {
    StuckGroupsStayPut(cells, groups);
    CommitQuiet(cells, s);
  }

  /** With nothing pending, committing changes nothing. */
  lemma CommitQuiet(cells: seq<Cell>, s: Score)
    requires Quiescent(cells)
    ensures forall m | 0 <= m < |cells| :: Backed(cells[m])
    ensures CommitFrom(cells, s, 0) == Outcome(cells, s)
  {
    NoMergeGain(cells, 0);
    var r := CommitFrom(cells, s, 0);
    assert r.cells == cells by {
      forall m | 0 <= m < |cells| ensures r.cells[m] == cells[m] {
        assert !HasTileForMerge(cells[m]);
      }
    }
  }

  /** Some group can move exactly when moving changes a settled value. */
  lemma MovableIffChanged(cells: seq<Cell>, groups: seq<seq<nat>>, s: Score)
    requires Ready(cells, groups)
    ensures CanMoveAlong(cells, groups)
        <==> SettledValues(MoveAlong(cells, groups, s).cells) != SettledValues(cells)
  {
    if CanMoveAlong(cells, groups) {
      var i := MovedChangesACell(cells, groups, s);
      assert SettledValues(MoveAlong(cells, groups, s).cells)[i] != SettledValues(cells)[i];
    } else {
      StuckMoveIsNoOp(cells, groups, s);
    }
  }

  /** A cell whose settled value a legal move changes. */
  lemma MovedChangesACell(cells: seq<Cell>, groups: seq<seq<nat>>, s: Score) returns (i: nat)
    requires Ready(cells, groups) && CanMoveAlong(cells, groups)
    ensures i < CellsCount
    ensures ValueOf(MoveAlong(cells, groups, s).cells[i].linkedTile) != ValueOf(cells[i].linkedTile)
  {
    ReadyViews(cells, groups);
    var k :| 0 <= k < GridSize && CanMoveInGroup(Gather(cells, groups[k]));
    var p := GroupChangedAt(Gather(cells, groups[k]));
    MoveAlongIsGroupwise(cells, groups, s, k, p);
    i := groups[k][p];
  }

  /** A place in a movable group whose settled value the move changes. */
  lemma GroupChangedAt(view: seq<Cell>) returns (p: nat)
    requires Quiescent(view) && CanMoveInGroup(view)
    ensures p < |view| == |CommittedLine(MoveTilesInGroup(view))|
    ensures CommittedLine(MoveTilesInGroup(view))[p] != ValueOf(view[p].linkedTile)
  {
    GroupLegalIffChanged(view);
    var line := CommittedLine(MoveTilesInGroup(view));
    var vs := SettledValues(view);
    assert |line| == |vs|;
    p :| 0 <= p < |vs| && line[p] != vs[p];
  }

  /** After a move some group could make, some cell is empty: the cell just
      past the moved group's packed tiles. */
  lemma MovedBoardHasRoom(cells: seq<Cell>, groups: seq<seq<nat>>, s: Score)
      returns (i: nat)
    requires Ready(cells, groups) && CanMoveAlong(cells, groups)
    ensures i < CellsCount && IsEmpty(MoveAlong(cells, groups, s).cells[i])
  {
    ReadyViews(cells, groups);
    var k :| 0 <= k < GridSize && CanMoveInGroup(Gather(cells, groups[k]));
    var p := GroupRoom(Gather(cells, groups[k]));
    MoveAlongIsGroupwise(cells, groups, s, k, p);
    i := groups[k][p];
  }

  /** The place in a movable group that is free after its move. */
  lemma GroupRoom(view: seq<Cell>) returns (p: nat)
    requires Quiescent(view) && CanMoveInGroup(view)
    ensures p < |view| && CommittedLine(MoveTilesInGroup(view))[p] == None
  {
    CanMoveIffUnstable(view);
    UnstableFreesACell(SettledValues(view));
    GroupMoveIsSlide(view);
    p := |Stack(SettledValues(view))|;
  }

  /** A group's settled values after a move are its own loop's committed
      line. */
  lemma GroupAfterMove(cells: seq<Cell>, groups: seq<seq<nat>>, s: Score, k: nat)
    requires Ready(cells, groups) && k < GridSize
    ensures Family(groups, |cells|)
    ensures SettledValues(Gather(MoveAlong(cells, groups, s).cells, groups[k]))
        == CommittedLine(MoveTilesInGroup(Gather(cells, groups[k])))
  {
    ReadyViews(cells, groups);
    var after := SettledValues(Gather(MoveAlong(cells, groups, s).cells, groups[k]));
    var line := CommittedLine(MoveTilesInGroup(Gather(cells, groups[k])));
    forall p | 0 <= p < GridSize
      ensures after[p] == line[p]
    {
      MoveAlongIsGroupwise(cells, groups, s, k, p);
    }
  }

  /** Each group keeps the sum of its values and loses one tile per merge. */
  lemma GroupsConserve(cells: seq<Cell>, groups: seq<seq<nat>>, s: Score, k: nat)
    requires Ready(cells, groups) && k < GridSize
    ensures Family(groups, |cells|)
    ensures var before := SettledValues(Gather(cells, groups[k]));
      var after := SettledValues(Gather(MoveAlong(cells, groups, s).cells, groups[k]));
      Sum(after) == Sum(before) && Count(after) == Count(before) - Merges(Stack(before))
  {
    ReadyViews(cells, groups);
    GroupAfterMove(cells, groups, s, k);
    GroupMoveConserves(Gather(cells, groups[k]));
  }

  // ---------------------------------------------------------------------
  // The four directions on a grid

  /** `moveUp` … `moveRight`: the move along the grid's groups for `d`. */
  function MoveTiles(g: Grid, d: Direction, s: Score): (r: Outcome)
    requires Valid(g) && Quiescent(g.cells)
    ensures |r.cells| == CellsCount && Quiescent(r.cells)
    ensures r.score.points >= s.points
  {
    LayoutIsPartition(d);
    MoveAlong(g.cells, GroupsFor(g, d), s)
  }

  /** Every row or column of the move's grouping ends up as the reference
      slide of its settled values. */
  lemma MoveTilesIsSlide(g: Grid, d: Direction, s: Score, k: nat)
    requires Valid(g) && Quiescent(g.cells) && k < GridSize
    ensures Family(GroupsFor(g, d), |g.cells|)
    ensures SettledValues(Gather(MoveTiles(g, d, s).cells, GroupsFor(g, d)[k]))
        == SlideValues(SettledValues(Gather(g.cells, GroupsFor(g, d)[k])))
  {
    LayoutIsPartition(d);
    ReadyViews(g.cells, GroupsFor(g, d));
    GroupAfterMove(g.cells, GroupsFor(g, d), s, k);
    GroupMoveIsSlide(Gather(g.cells, GroupsFor(g, d)[k]));
  }

  /** The score rises by exactly the merges of the reference piles. */
  lemma MoveTilesScores(g: Grid, d: Direction, s: Score)
    requires Valid(g) && Quiescent(g.cells)
    ensures Ready(g.cells, GroupsFor(g, d))
    ensures MoveTiles(g, d, s).score.points == s.points + PileGain(g.cells, GroupsFor(g, d), 0)
  {
    LayoutIsPartition(d);
    MoveAlongScores(g.cells, GroupsFor(g, d), s);
  }

  /** `canMoveUp` … `canMoveRight`. */
  predicate CanMove(g: Grid, d: Direction)
    requires Valid(g) && Quiescent(g.cells)
  {
    LayoutIsPartition(d);
    CanMoveAlong(g.cells, GroupsFor(g, d))
  }

  /** An illegal direction changes neither the board nor the score. */
  lemma IllegalMoveIsNoOp(g: Grid, d: Direction, s: Score)
    requires Valid(g) && Quiescent(g.cells) && !CanMove(g, d)
    ensures MoveTiles(g, d, s) == Outcome(g.cells, s)
  {
    LayoutIsPartition(d);
    StuckMoveIsNoOp(g.cells, GroupsFor(g, d), s);
  }

  /** A direction is legal exactly when moving that way changes the board. */
  lemma LegalIffChanged(g: Grid, d: Direction, s: Score)
    requires Valid(g) && Quiescent(g.cells)
    ensures CanMove(g, d) <==> SettledValues(MoveTiles(g, d, s).cells) != SettledValues(g.cells)
  {
    LayoutIsPartition(d);
    MovableIffChanged(g.cells, GroupsFor(g, d), s);
  }

  /** After a legal move some cell is empty, so the new tile always finds a
      place (the non-null assertion on `getRandomEmptyCell()` holds). */
  lemma LegalMoveLeavesEmptyCell(g: Grid, d: Direction, s: Score) returns (i: nat)
    requires Valid(g) && Quiescent(g.cells) && CanMove(g, d)
    ensures i < CellsCount && IsEmpty(MoveTiles(g, d, s).cells[i])
  {
    LayoutIsPartition(d);
    i := MovedBoardHasRoom(g.cells, GroupsFor(g, d), s);
  }

  /** Cell `p` of a group keeps its coordinates through the group's loop,
      and its tiles stay drawn at it when every tile of the board was. */
  lemma GroupCellKeepsFrame(cells: seq<Cell>, group: seq<nat>, p: nat)
    requires IndicesIn(group, |cells|) && p < |group|
    ensures |MoveTilesInGroup(Gather(cells, group))| == |group|
    ensures MoveTilesInGroup(Gather(cells, group))[p].x == cells[group[p]].x
    ensures MoveTilesInGroup(Gather(cells, group))[p].y == cells[group[p]].y
    ensures AllPlaced(cells) ==> TilesPlaced(MoveTilesInGroup(Gather(cells, group))[p])
  {
    var view := Gather(cells, group);
    assert SameFrame(MoveTilesInGroup(view), view);
    if AllPlaced(cells) {
      assert AllPlaced(view);
    }
  }

  /** The cell at place `p` of group `k` after the group loops. */
  lemma MovedCellAt(cells: seq<Cell>, groups: seq<seq<nat>>, k: nat, p: nat)
    requires Ready(cells, groups) && k < GridSize && p < GridSize
    ensures Family(groups, |cells|)
    ensures MoveGroups(cells, groups)[groups[k][p]] == MoveTilesInGroup(Gather(cells, groups[k]))[p]
  {
    ReadyViews(cells, groups);
    MoveGroupsIsGroupwise(cells, groups);
  }

  lemma MovedCellKeepsFrame(cells: seq<Cell>, groups: seq<seq<nat>>, i: nat)
    requires Ready(cells, groups) && i < CellsCount
    ensures Family(groups, |cells|)
    ensures MoveGroups(cells, groups)[i].x == cells[i].x
    ensures MoveGroups(cells, groups)[i].y == cells[i].y
    ensures AllPlaced(cells) ==> TilesPlaced(MoveGroups(cells, groups)[i])
  {
    var k, p := Locate(groups, i);
    MovedCellAt(cells, groups, k, p);
    GroupCellKeepsFrame(cells, groups[k], p);
  }

  /** The group loops keep every cell at its coordinates and every tile
      drawn at its cell. */
  lemma MovedGroupsKeepFrame(cells: seq<Cell>, groups: seq<seq<nat>>)
    requires Ready(cells, groups)
    ensures Family(groups, |cells|)
    ensures forall i | 0 <= i < CellsCount ::
      MoveGroups(cells, groups)[i].x == cells[i].x && MoveGroups(cells, groups)[i].y == cells[i].y
    ensures AllPlaced(cells) ==> AllPlaced(MoveGroups(cells, groups))
  {
    ReadyViews(cells, groups);
    forall i | 0 <= i < CellsCount
      ensures MoveGroups(cells, groups)[i].x == cells[i].x && MoveGroups(cells, groups)[i].y == cells[i].y
      ensures AllPlaced(cells) ==> TilesPlaced(MoveGroups(cells, groups)[i])
    {
      MovedCellKeepsFrame(cells, groups, i);
    }
  }

  /** Moving keeps every cell at its coordinates and every tile drawn at its
      cell. */
  lemma MoveKeepsFrame(cells: seq<Cell>, groups: seq<seq<nat>>, s: Score)
    requires Ready(cells, groups)
    ensures forall i | 0 <= i < CellsCount ::
      MoveAlong(cells, groups, s).cells[i].x == cells[i].x
      && MoveAlong(cells, groups, s).cells[i].y == cells[i].y
    ensures AllPlaced(cells) ==> AllPlaced(MoveAlong(cells, groups, s).cells)
  {
    MovedGroupsKeepFrame(cells, groups);
    MovedCellsCoherent(cells, groups);
  }

  /** A board between moves: laid out as the constructor builds it, no merge
      pending, every tile drawn at its cell. */
  predicate Playable(g: Grid) {
    Valid(g) && Quiescent(g.cells) && AllPlaced(g.cells)
  }

  /** Moving in any direction leaves a playable board. */
  lemma MoveKeepsPlayable(g: Grid, d: Direction, s: Score)
    requires Playable(g)
    ensures Playable(g.(cells := MoveTiles(g, d, s).cells))
  {
    LayoutIsPartition(d);
    var r := MoveTiles(g, d, s).cells;
    MoveKeepsFrame(g.cells, GroupsFor(g, d), s);
    assert WellPlaced(r) by {
      forall i | 0 <= i < CellsCount ensures r[i].x == i % GridSize && r[i].y == i / GridSize {
        assert r[i].x == g.cells[i].x && r[i].y == g.cells[i].y;
      }
    }
  }

  /** Each group of a move conserves the sum of its values. */
  lemma MoveConservesEachGroup(g: Grid, d: Direction, s: Score, k: nat)
    requires Valid(g) && Quiescent(g.cells) && k < GridSize
    ensures Family(GroupsFor(g, d), |g.cells|)
    ensures var before := SettledValues(Gather(g.cells, GroupsFor(g, d)[k]));
      var after := SettledValues(Gather(MoveTiles(g, d, s).cells, GroupsFor(g, d)[k]));
      Sum(after) == Sum(before) && Count(after) == Count(before) - Merges(Stack(before))
  {
    LayoutIsPartition(d);
    GroupsConserve(g.cells, GroupsFor(g, d), s, k);
  }

  // ---------------------------------------------------------------------
  // Spawning tiles

  /** `new Tile(...)`: its value drawn by `valueRoll`; its coordinates are
      set when it is linked. */
  function NewTile(valueRoll: real): Tile {
    Tile(SpawnValue(valueRoll), 0, 0)
  }

  predicate HasEmptyCell(g: Grid) {
    exists i | 0 <= i < |g.cells| :: IsEmpty(g.cells[i])
  }

  /** `grid.getRandomEmptyCell().linkTile(new Tile(...))`. The source asserts
      the cell is not null, so the board must have an empty cell. */
  function Spawn(g: Grid, cellRoll: real, valueRoll: real): (r: Grid)
    requires IsRoll(cellRoll) && HasEmptyCell(g)
    ensures exists i | 0 <= i < |g.cells| ::
      && IsEmpty(g.cells[i])
      && r == g.(cells := g.cells[i := LinkTile(g.cells[i], NewTile(valueRoll))])
  {
    var i := RandomEmptyCell(g, cellRoll).value;
    g.(cells := g.cells[i := LinkTile(g.cells[i], NewTile(valueRoll))])
  }

  /** Linking a tile into an empty cell keeps the board playable. */
  lemma SpawnKeepsPlayable(g: Grid, cellRoll: real, valueRoll: real)
    requires Playable(g) && IsRoll(cellRoll) && HasEmptyCell(g)
    ensures Playable(Spawn(g, cellRoll, valueRoll))
  {
  }

  lemma LegalMoveHasRoom(g: Grid, d: Direction, s: Score)
    requires Valid(g) && Quiescent(g.cells) && CanMove(g, d)
    ensures HasEmptyCell(g.(cells := MoveTiles(g, d, s).cells))
  {
    var i := LegalMoveLeavesEmptyCell(g, d, s);
  }

  // ---------------------------------------------------------------------
  // The input cycle

  /** `GameOver` as `handleInput` tests it after spawning. */
  predicate GameOver(g: Grid)
    requires Valid(g) && Quiescent(g.cells)
  {
    !CanMove(g, Up) && !CanMove(g, Down) && !CanMove(g, Left) && !CanMove(g, Right)
  }

  /** The game's state: the board, the score, what the browser storage
      holds (`None` once it has been cleared), and whether the one-shot
      `keydown` listener is armed (`setupInputOnce()`). */
  datatype Session = Session(grid: Grid, score: Score, saved: Option<seq<Entry>>, listening: bool)

  /** `handleInput(event)`, reached only while the listener is armed. The
      listener fires once: an unknown key or an illegal arrow re-arms it and
      changes nothing; a legal arrow moves, spawns one tile into an empty
      cell, saves, and then either re-arms the listener or, when no direction
      is legal any more, clears the storage and leaves it disarmed. With the
      listener disarmed a key press reaches no handler. */
  function HandleInput(s: Session, key: Key, cellRoll: real, valueRoll: real): (r: Session)
    requires Playable(s.grid) && IsRoll(cellRoll)
    ensures Playable(r.grid)
    ensures !s.listening ==> r == s
    ensures s.listening && key.OtherKey? ==> r == s
    ensures s.listening && key.Arrow? && !CanMove(s.grid, key.direction) ==> r == s
    ensures s.listening && key.Arrow? && CanMove(s.grid, key.direction) ==>
      var o := MoveTiles(s.grid, key.direction, s.score);
      && r.score == o.score
      && (exists i | 0 <= i < CellsCount ::
            && IsEmpty(o.cells[i])
            && r.grid.cells == o.cells[i := LinkTile(o.cells[i], NewTile(valueRoll))])
      && r.listening == !GameOver(r.grid)
      && r.saved == (if r.listening then Some(Save(r.grid.cells, r.score)) else None)
  {
    if !s.listening then s
    else
      match key
      case OtherKey => s
      case Arrow(d) =>
        if !CanMove(s.grid, d) then s
        else
          var o := MoveTiles(s.grid, d, s.score);
          var moved := s.grid.(cells := o.cells);
          MoveKeepsPlayable(s.grid, d, s.score);
          LegalMoveHasRoom(s.grid, d, s.score);
          var spawned := Spawn(moved, cellRoll, valueRoll);
          SpawnKeepsPlayable(moved, cellRoll, valueRoll);
          var over := GameOver(spawned);
          Session(spawned, o.score, if over then None else Some(Save(spawned.cells, o.score)), !over)
  }

  /** The cell a spawn fills. */
  lemma SpawnedCell(g: Grid, roll: real, value: real) returns (i: nat)
    requires IsRoll(roll) && HasEmptyCell(g)
    ensures i < |g.cells| && IsEmpty(g.cells[i])
    ensures Spawn(g, roll, value) == g.(cells := g.cells[i := LinkTile(g.cells[i], NewTile(value))])
  {
    i := RandomEmptyCell(g, roll).value;
  }

  /** Two spawns on an empty board fill two distinct cells and nothing else. */
  lemma TwoSpawns(g: Grid, roll1: real, value1: real, roll2: real, value2: real)
    requires |g.cells| == CellsCount && IsRoll(roll1) && IsRoll(roll2)
    requires forall m | 0 <= m < CellsCount :: IsEmpty(g.cells[m])
    ensures HasEmptyCell(g) && HasEmptyCell(Spawn(g, roll1, value1))
    ensures var r := Spawn(Spawn(g, roll1, value1), roll2, value2);
      exists i, j | 0 <= i < CellsCount && 0 <= j < CellsCount ::
        && i != j
        && r.cells[i].linkedTile.Some? && r.cells[i].linkedTile.value.value == NewTile(value1).value
        && r.cells[j].linkedTile.Some? && r.cells[j].linkedTile.value.value == NewTile(value2).value
        && forall m | 0 <= m < CellsCount && m != i && m != j :: IsEmpty(r.cells[m])
  {
    assert IsEmpty(g.cells[0]);
    var i := SpawnedCell(g, roll1, value1);
    var first := Spawn(g, roll1, value1);
    assert IsEmpty(first.cells[if i == 0 then 1 else 0]);
    var j := SpawnedCell(first, roll2, value2);
    var r := Spawn(first, roll2, value2);
    assert j != i;
    assert r.cells == g.cells[i := LinkTile(g.cells[i], NewTile(value1))]
                             [j := LinkTile(first.cells[j], NewTile(value2))];
    assert r.cells[i].linkedTile.Some? && r.cells[i].linkedTile.value.value == NewTile(value1).value;
    assert r.cells[j].linkedTile.Some? && r.cells[j].linkedTile.value.value == NewTile(value2).value;
    forall m | 0 <= m < CellsCount && m != i && m != j ensures IsEmpty(r.cells[m]) {
      assert r.cells[m] == g.cells[m];
    }
  }

  /** `clearGrid()` leaves a playable board with every cell empty. */
  lemma ClearKeepsPlayable(g: Grid)
    requires Playable(g)
    ensures Playable(ClearGrid(g))
    ensures forall m | 0 <= m < CellsCount :: IsEmpty(ClearGrid(g).cells[m])
  {
    var r := ClearGrid(g);
    assert WellPlaced(r.cells) by {
      forall i | 0 <= i < CellsCount
        ensures r.cells[i].x == i % GridSize && r.cells[i].y == i / GridSize
      {
        assert r.cells[i].x == g.cells[i].x && r.cells[i].y == g.cells[i].y;
      }
    }
    forall i | 0 <= i < CellsCount ensures TilesPlaced(r.cells[i]) && !HasTileForMerge(r.cells[i]) {
      assert TilesPlaced(g.cells[i]) && !HasTileForMerge(g.cells[i]);
    }
  }

  /** `resetGame()`: clears the board, zeroes the score and spawns two
      tiles; the stored game is left as it was, and so is the key listener,
      which `resetGame` does not arm. */
  function ResetGame(s: Session, roll1: real, value1: real, roll2: real, value2: real): (r: Session)
    requires Playable(s.grid) && IsRoll(roll1) && IsRoll(roll2)
    ensures Playable(r.grid) && r.score.points == 0 && r.saved == s.saved
    ensures r.listening == s.listening
    ensures exists i, j | 0 <= i < CellsCount && 0 <= j < CellsCount ::
      && i != j
      && r.grid.cells[i].linkedTile.Some? && r.grid.cells[i].linkedTile.value.value == NewTile(value1).value
      && r.grid.cells[j].linkedTile.Some? && r.grid.cells[j].linkedTile.value.value == NewTile(value2).value
      && forall m | 0 <= m < CellsCount && m != i && m != j :: IsEmpty(r.grid.cells[m])
  {
    var cleared := ClearGrid(s.grid);
    ClearKeepsPlayable(s.grid);
    TwoSpawns(cleared, roll1, value1, roll2, value2);
    SpawnKeepsPlayable(cleared, roll1, value1);
    SpawnKeepsPlayable(Spawn(cleared, roll1, value1), roll2, value2);
    Session(Spawn(Spawn(cleared, roll1, value1), roll2, value2), ResetScore(s.score), s.saved, s.listening)
  }

  /** What a legal move stores brings the board's values and the score back
      when the page restores it onto any freshly built grid. */
  lemma ResumeAfterInput(s: Session, d: Direction, cellRoll: real, valueRoll: real, h: Grid)
    requires Playable(s.grid) && IsRoll(cellRoll) && Valid(h)
    requires CanMove(s.grid, d) && HandleInput(s, Arrow(d), cellRoll, valueRoll).listening
    ensures var r := HandleInput(s, Arrow(d), cellRoll, valueRoll);
      && r.saved.Some?
      && var back := RestoreGameProgress(h, r.saved.value);
      && back.Restored?
      && back.score == r.score
      && SettledValues(back.grid.cells) == SettledValues(r.grid.cells)
  {
    var r := HandleInput(s, Arrow(d), cellRoll, valueRoll);
    SaveRestoreRoundTrip(r.grid, h, r.score);
  }

  // ---------------------------------------------------------------------
  // Resetting after a game over

  /** The cell next to `(x, y)` in the direction a move in `d` takes tiles. */
  function Ahead(d: Direction, x: int, y: int): (int, int) {
    match d
    case Up => (x, y - 1)
    case Down => (x, y + 1)
    case Left => (x - 1, y)
    case Right => (x + 1, y)
  }

  predicate OnGrid(x: int, y: int) {
    0 <= x < GridSize && 0 <= y < GridSize
  }

  /** On a well-placed board, each cell's index is given by its coordinates. */
  lemma PlacedIndex(cells: seq<Cell>, m: nat)
    requires WellPlaced(cells) && m < CellsCount
    ensures m == IndexOf(cells[m].x, cells[m].y)
  {
  }

  /** An occupied place of a group whose predecessor is empty makes the
      direction legal. */
  lemma GroupOpen(g: Grid, d: Direction, k: nat, p: nat)
    requires Playable(g) && k < GridSize && 0 < p < GridSize
    requires k < |GroupsFor(g, d)| && p < |GroupsFor(g, d)[k]|
    requires GroupsFor(g, d)[k][p] < CellsCount && GroupsFor(g, d)[k][p - 1] < CellsCount
    requires !IsEmpty(g.cells[GroupsFor(g, d)[k][p]]) && IsEmpty(g.cells[GroupsFor(g, d)[k][p - 1]])
    ensures CanMove(g, d)
  {
    LayoutIsPartition(d);
    var groups := GroupsFor(g, d);
    ReadyViews(g.cells, groups);
    var view := Gather(g.cells, groups[k]);
    assert !IsEmpty(view[p]) && CanAccept(view[p - 1], view[p].linkedTile.value);
  }

  /** A tile whose next cell in direction `d` is empty makes `d` legal. */
  lemma OpenNeighbour(g: Grid, d: Direction, x: nat, y: nat)
    requires Playable(g) && OnGrid(x, y) && OnGrid(Ahead(d, x, y).0, Ahead(d, x, y).1)
    requires !IsEmpty(g.cells[IndexOf(x, y)])
    requires IsEmpty(g.cells[IndexOf(Ahead(d, x, y).0, Ahead(d, x, y).1)])
    ensures CanMove(g, d)
  {
    match d
    case Up => OpenAt(g, d, x, y, x, y);
    case Down => OpenAt(g, d, x, y, x, GridSize - 1 - y);
    case Left => OpenAt(g, d, x, y, y, x);
    case Right => OpenAt(g, d, x, y, y, GridSize - 1 - x);
  }

  /** Where place `p` of group `k` lies in direction `d`'s grouping. */
  function Place(d: Direction, k: int, p: int): (int, int) {
    match d
    case Up => (k, p)
    case Down => (k, GridSize - 1 - p)
    case Left => (p, k)
    case Right => (GridSize - 1 - p, k)
  }

  lemma OpenAt(g: Grid, d: Direction, x: nat, y: nat, k: nat, p: nat)
    requires Playable(g) && OnGrid(x, y) && OnGrid(Ahead(d, x, y).0, Ahead(d, x, y).1)
    requires k < GridSize && 0 < p < GridSize
    requires Place(d, k, p) == (x, y) && Place(d, k, p - 1) == Ahead(d, x, y)
    requires !IsEmpty(g.cells[IndexOf(x, y)])
    requires IsEmpty(g.cells[IndexOf(Ahead(d, x, y).0, Ahead(d, x, y).1)])
    ensures CanMove(g, d)
  {
    var groups := GroupsFor(g, d);
    DirectionMapping(g, d, k, p);
    DirectionMapping(g, d, k, p - 1);
    PlacedIndex(g.cells, groups[k][p]);
    PlacedIndex(g.cells, groups[k][p - 1]);
    GroupOpen(g, d, k, p);
  }

  /** A board with one tile, or two, always has a legal direction: the tile
      has a horizontal and a vertical neighbour, and the other tile can
      block only one of them. */
  lemma TwoTilesCanMove(g: Grid, i: nat, j: nat)
    requires Playable(g) && i < CellsCount && j < CellsCount && !IsEmpty(g.cells[i])
    requires forall m | 0 <= m < CellsCount && m != i && m != j :: IsEmpty(g.cells[m])
    ensures exists d :: CanMove(g, d)
  {
    var x, y := i % GridSize, i / GridSize;
    assert i == IndexOf(x, y);
    var across := if x > 0 then Left else Right;
    var along := if y > 0 then Up else Down;
    var a, b := Ahead(across, x, y), Ahead(along, x, y);
    if IndexOf(a.0, a.1) != j {
      OpenNeighbour(g, across, x, y);
    } else {
      OpenNeighbour(g, along, x, y);
    }
  }

  /** `resetGame()` as it is evidently meant to work: the new game takes
      keys again. Arming an armed listener would not add a second one. */
  function ResetGameFixed(s: Session, roll1: real, value1: real, roll2: real, value2: real): (r: Session)
    requires Playable(s.grid) && IsRoll(roll1) && IsRoll(roll2)
    ensures r.listening
    ensures r.(listening := s.listening) == ResetGame(s, roll1, value1, roll2, value2)
  {
    ResetGame(s, roll1, value1, roll2, value2).(listening := true)
  }

  /** A reset deals a board on which some direction is legal. */
  lemma ResetCanMove(s: Session, roll1: real, value1: real, roll2: real, value2: real)
    requires Playable(s.grid) && IsRoll(roll1) && IsRoll(roll2)
    ensures exists d :: CanMove(ResetGame(s, roll1, value1, roll2, value2).grid, d)
  {
    var dealt := ResetGame(s, roll1, value1, roll2, value2);
    var i, j :| 0 <= i < CellsCount && 0 <= j < CellsCount
      && i != j
      && dealt.grid.cells[i].linkedTile.Some? && dealt.grid.cells[i].linkedTile.value.value == NewTile(value1).value
      && dealt.grid.cells[j].linkedTile.Some? && dealt.grid.cells[j].linkedTile.value.value == NewTile(value2).value
      && forall m | 0 <= m < CellsCount && m != i && m != j :: IsEmpty(dealt.grid.cells[m]);
    TwoTilesCanMove(dealt.grid, i, j);
  }

  /** As written: once a move ends the game, a reset deals a new board on
      which some direction is legal, yet every key press leaves the game
      exactly as it is. */
  lemma ResetAfterGameOverIgnoresKeys(s: Session, d: Direction, cellRoll: real, valueRoll: real,
                                      roll1: real, value1: real, roll2: real, value2: real,
                                      key: Key, nextCell: real, nextValue: real)
    requires Playable(s.grid) && IsRoll(cellRoll) && IsRoll(roll1) && IsRoll(roll2) && IsRoll(nextCell)
    requires !HandleInput(s, Arrow(d), cellRoll, valueRoll).listening
    ensures var dealt := ResetGame(HandleInput(s, Arrow(d), cellRoll, valueRoll), roll1, value1, roll2, value2);
      && (exists d' :: CanMove(dealt.grid, d'))
      && HandleInput(dealt, key, nextCell, nextValue) == dealt
  {
    ResetCanMove(HandleInput(s, Arrow(d), cellRoll, valueRoll), roll1, value1, roll2, value2);
  }

  /** With the corrected reset the new game is armed, and an arrow in one of
      its legal directions is played. */
  lemma FixedResetResumesPlay(s: Session, d: Direction, cellRoll: real, valueRoll: real,
                              roll1: real, value1: real, roll2: real, value2: real)
    requires Playable(s.grid) && IsRoll(cellRoll) && IsRoll(roll1) && IsRoll(roll2)
    requires !HandleInput(s, Arrow(d), cellRoll, valueRoll).listening
    ensures var dealt := ResetGameFixed(HandleInput(s, Arrow(d), cellRoll, valueRoll), roll1, value1, roll2, value2);
      && dealt.listening
      && exists d' :: CanMove(dealt.grid, d')
  {
    ResetCanMove(HandleInput(s, Arrow(d), cellRoll, valueRoll), roll1, value1, roll2, value2);
  }
}
