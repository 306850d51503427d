/** One group of cells (a row or column, in the order the chosen direction
    walks it) as the object-oriented engine moves it: `moveTilesInGroup` and
    `canMoveInGroup` of oopJS/script.js and src/script.ts.

    The group is modelled by value, as the sequence of its cells; the grid
    module writes the processed cells back to the positions they came from.
    The main theorem says that on every group without pending merges the
    loop computes the reference pile of the `Pile` module. */
module Slide {
  import opened Wrappers
  import opened Cells
  import opened Pile

  // ---------------------------------------------------------------------
  // Contents of cells, stripped of positions

  function ValueOf(o: Option<Tile>): Option<nat> {
    if o.Some? then Some(o.value.value) else None
  }

  function Content(c: Cell): Slots {
    Slots(ValueOf(c.linkedTile), ValueOf(c.linkedTileForMerge))
  }

  function Contents(cs: seq<Cell>): (r: seq<Slots>)
    ensures |r| == |cs|
    ensures forall m | 0 <= m < |cs| :: r[m] == Content(cs[m])
  {
    seq(|cs|, m requires 0 <= m < |cs| => Content(cs[m]))
  }

  /** The settled value of every cell, as the saved game records it. */
  function SettledValues(cs: seq<Cell>): (vs: seq<Option<nat>>)
    ensures |vs| == |cs|
    ensures forall m | 0 <= m < |cs| :: vs[m] == ValueOf(cs[m].linkedTile)
  {
    seq(|cs|, m requires 0 <= m < |cs| => ValueOf(cs[m].linkedTile))
  }

  /** No cell has a merge waiting: the state between two moves. */
  predicate Quiescent(cs: seq<Cell>) {
    forall m | 0 <= m < |cs| :: !HasTileForMerge(cs[m])
  }

  /** The cells keep their coordinates and merge records. */
  predicate SameFrame(a: seq<Cell>, b: seq<Cell>) {
    && |a| == |b|
    && forall m | 0 <= m < |a| ::
         a[m].x == b[m].x && a[m].y == b[m].y && a[m].mergedScore == b[m].mergedScore
  }

  predicate AllPlaced(cs: seq<Cell>) {
    forall m | 0 <= m < |cs| :: TilesPlaced(cs[m])
  }

  /** `canAccept` read on contents. */
  lemma CanAcceptIsAcceptsValue(c: Cell, t: Tile)
    ensures CanAccept(c, t) == AcceptsValue(Content(c), t.value)
  {
  }

  // ---------------------------------------------------------------------
  // The engine's loop

  /** Where a moving tile lands: an empty cell takes it as its settled tile,
      an occupied one parks it as the pending merge. */
  function Receive(c: Cell, t: Tile): Cell {
    if IsEmpty(c) then LinkTile(c, t) else LinkTileForMerge(c, t)
  }

  /** The inner `while` of `moveTilesInGroup`: starting at position `j`, step
      toward the front while the cell there accepts `t`; the result is the
      position where the walk stopped (-1 when it ran off the front). */
  function Walk(cs: seq<Cell>, j: int, t: Tile): (stop: int)
    requires -1 <= j < |cs|
    ensures -1 <= stop <= j
    ensures forall m | stop < m <= j :: CanAccept(cs[m], t)
    ensures stop >= 0 ==> !CanAccept(cs[stop], t)
    decreases j + 1
  {
    if j >= 0 && CanAccept(cs[j], t) then Walk(cs, j - 1, t) else j
  }

  /** Position `k` is the furthest cell in front of position `i` reached by an
      unbroken run of cells that accept the tile at `i`. */
  predicate FurthestReach(cs: seq<Cell>, i: nat, k: nat)
    requires k < i < |cs| && !IsEmpty(cs[i])
  {
    && (forall m | k <= m < i :: CanAccept(cs[m], cs[i].linkedTile.value))
    && (k == 0 || !CanAccept(cs[k - 1], cs[i].linkedTile.value))
  }

  /** One pass of the outer loop of `moveTilesInGroup`, for position `i`. */
  function MoveTile(cs: seq<Cell>, i: nat): (r: seq<Cell>)
    requires 0 < i < |cs|
    ensures SameFrame(r, cs)
    ensures AllPlaced(cs) ==> AllPlaced(r)
    ensures IsEmpty(cs[i]) || !CanAccept(cs[i - 1], cs[i].linkedTile.value) ==> r == cs
    ensures !IsEmpty(cs[i]) && CanAccept(cs[i - 1], cs[i].linkedTile.value) ==>
      exists k | 0 <= k < i ::
        && FurthestReach(cs, i, k)
        && r == cs[k := Receive(cs[k], cs[i].linkedTile.value)][i := UnlinkTile(cs[i])]
  {
    if IsEmpty(cs[i]) then cs
    else
      var t := cs[i].linkedTile.value;
      var k := Walk(cs, i - 1, t) + 1;
      if k == i then cs
      else
        assert FurthestReach(cs, i, k);
        cs[k := Receive(cs[k], t)][i := UnlinkTile(cs[i])]
  }

  /** The outer loop from position `i` on. */
  function MoveFrom(cs: seq<Cell>, i: nat): (r: seq<Cell>)
    requires 0 < i
    ensures SameFrame(r, cs)
    ensures AllPlaced(cs) ==> AllPlaced(r)
    decreases |cs| - i
  {
    if i >= |cs| then cs else MoveFrom(MoveTile(cs, i), i + 1)
  }

  /** `moveTilesInGroup(group)`: positions 1 to the end, front to back; the
      leading cell is never moved. */
  function MoveTilesInGroup(cs: seq<Cell>): seq<Cell> {
    MoveFrom(cs, 1)
  }

  /** `canMoveInGroup(group)`: some occupied cell other than the leading one
      has a predecessor that accepts its tile. */
  predicate CanMoveInGroup(cs: seq<Cell>) {
    exists i | 1 <= i < |cs| ::
      !IsEmpty(cs[i]) && CanAccept(cs[i - 1], cs[i].linkedTile.value)
  }

  // ---------------------------------------------------------------------
  // The loop computes the reference

  /** The front `i` cells hold the pile `st` followed by empty cells. */
  predicate Matches(cs: seq<Cell>, st: seq<Slots>, i: nat)
    requires i <= |cs|
  {
    forall m | 0 <= m < i :: Content(cs[m]) == if m < |st| then st[m] else Vacant
  }

  /** The state of the group once the loop has handled positions before `i`:
      the front `i` cells hold the pile of the first `i` original values, the
      rest are untouched. */
  predicate Handled(cs0: seq<Cell>, cs: seq<Cell>, i: nat)
    requires 0 < i <= |cs0|
  {
    && |cs| == |cs0|
    && Matches(cs, Stack(SettledValues(cs0)[..i]), i)
    && (forall m | i <= m < |cs| :: cs[m] == cs0[m])
  }

  /** Over a packed front, the walk crosses the empty cells, steps onto the
      last tile when that one accepts, and stops there. */
  lemma WalkOverPile(cs: seq<Cell>, st: seq<Slots>, i: nat, t: Tile)
    requires Tidy(st) && |st| <= i < |cs| && Matches(cs, st, i)
    ensures Walk(cs, i - 1, t) == if TopTakes(st, t.value) then |st| - 2 else |st| - 1
  {
    var n := |st|;
    var stop := Walk(cs, i - 1, t);
    forall m | 0 <= m < i
      ensures CanAccept(cs[m], t) == AcceptsValue(if m < n then st[m] else Vacant, t.value)
    {
      CanAcceptIsAcceptsValue(cs[m], t);
    }
    assert stop < n;
    if TopTakes(st, t.value) {
      assert CanAccept(cs[n - 1], t);
      assert n >= 2 ==> !CanAccept(cs[n - 2], t);
    } else {
      assert n >= 1 ==> !CanAccept(cs[n - 1], t);
    }
  }

  /** The pass for a tile of value `v` at position `i` turns the pile into
      `Absorb(st, v)` and leaves an empty cell behind. */
  lemma MoveTileAbsorbs(cs: seq<Cell>, st: seq<Slots>, i: nat, v: nat)
    requires Tidy(st) && 0 < i < |cs| && |st| <= i && Matches(cs, st, i)
    requires Content(cs[i]) == Slots(Some(v), None)
    ensures Matches(MoveTile(cs, i), Absorb(st, v), i + 1)
    ensures forall m | i < m < |cs| :: MoveTile(cs, i)[m] == cs[m]
  {
    var n := |st|;
    var t := cs[i].linkedTile.value;
    var r := MoveTile(cs, i);
    WalkOverPile(cs, st, i, t);
    var st' := Absorb(st, v);
    if TopTakes(st, v) {
      var k := n - 1;
      assert Content(cs[k]) == st[k];
      assert r == cs[k := LinkTileForMerge(cs[k], t)][i := UnlinkTile(cs[i])];
      assert st' == st[..k] + [Slots(Some(v), Some(v))];
      forall m | 0 <= m < i + 1
        ensures Content(r[m]) == if m < |st'| then st'[m] else Vacant
      {
        if m == k {
          assert Content(r[m]) == Slots(Some(v), Some(v));
        } else if m == i {
          assert Content(r[m]) == Vacant;
        } else {
          assert r[m] == cs[m];
        }
      }
    } else {
      assert st' == st + [Slots(Some(v), None)];
      if n < i {
        assert Content(cs[n]) == Vacant;
        assert r == cs[n := LinkTile(cs[n], t)][i := UnlinkTile(cs[i])];
        forall m | 0 <= m < i + 1
          ensures Content(r[m]) == if m < |st'| then st'[m] else Vacant
        {
          if m == n {
            assert Content(r[m]) == Slots(Some(v), None);
          } else if m == i {
            assert Content(r[m]) == Vacant;
          } else {
            assert r[m] == cs[m];
          }
        }
      }
    }
  }

  /** One pass of the loop takes the handled prefix from `i` to `i + 1`. */
  lemma StepKeepsHandled(cs0: seq<Cell>, cs: seq<Cell>, i: nat)
    requires Quiescent(cs0) && 0 < i < |cs0| && Handled(cs0, cs, i)
    ensures Handled(cs0, MoveTile(cs, i), i + 1)
  {
    var vs := SettledValues(cs0);
    var st := Stack(vs[..i]);
    StackStep(vs, i);
    assert cs[i] == cs0[i];
    assert Content(cs[i]) == Slots(vs[i], None);
    match vs[i]
    case None =>
      assert MoveTile(cs, i) == cs;
    case Some(v) =>
      MoveTileAbsorbs(cs, st, i, v);
  }

  lemma {:induction false} LoopFollowsStack(cs0: seq<Cell>, cs: seq<Cell>, i: nat)
    requires Quiescent(cs0) && 0 < i <= |cs0| && Handled(cs0, cs, i)
    ensures Handled(cs0, MoveFrom(cs, i), |cs0|)
    decreases |cs0| - i
  {
    if i < |cs0| {
      StepKeepsHandled(cs0, cs, i);
      LoopFollowsStack(cs0, MoveTile(cs, i), i + 1);
    }
  }

  /** Main theorem: on a group with no pending merge, `moveTilesInGroup`
      leaves exactly the reference pile followed by empty cells. */
  lemma MoveTilesInGroupIsStack(cs: seq<Cell>)
    requires Quiescent(cs)
    ensures Contents(MoveTilesInGroup(cs)) == Pad(Stack(SettledValues(cs)), |cs|)
  {
    var vs := SettledValues(cs);
    if |cs| > 0 {
      StackStep(vs, 0);
      assert vs[..0] == [];
      assert Handled(cs, cs, 1);
      LoopFollowsStack(cs, cs, 1);
      assert vs[..|cs|] == vs;
    }
  }

  // ---------------------------------------------------------------------
  // What a move does to one group

  /** A cell that took a tile as a pending merge accepts no further tile in
      the same move, so no cell merges twice. */
  lemma ReceiveOnce(c: Cell, t: Tile)
    requires Coherent(c) && CanAccept(c, t)
    ensures Coherent(Receive(c, t))
    ensures !IsEmpty(Receive(c, t))
    ensures !IsEmpty(c) ==> forall t' :: !CanAccept(Receive(c, t), t')
  {
  }

  lemma {:induction false} StuckLoopUnchanged(cs: seq<Cell>, i: nat)
    requires 0 < i && !CanMoveInGroup(cs)
    ensures MoveFrom(cs, i) == cs
    decreases |cs| - i
  {
    if i < |cs| {
      assert MoveTile(cs, i) == cs;
      StuckLoopUnchanged(cs, i + 1);
    }
  }

  /** When `canMoveInGroup` is false the loop changes no cell at all. */
  lemma IllegalGroupMoveIsNoOp(cs: seq<Cell>)
    requires !CanMoveInGroup(cs)
    ensures MoveTilesInGroup(cs) == cs
  {
    StuckLoopUnchanged(cs, 1);
  }

  /** At one position of a quiescent group, the engine's acceptance test and
      the reference's instability test agree. */
  lemma AcceptIffUnstableAt(cs: seq<Cell>, i: nat)
    requires Quiescent(cs) && 1 <= i < |cs|
    ensures (!IsEmpty(cs[i]) && CanAccept(cs[i - 1], cs[i].linkedTile.value)) <==>
      !StaysAt(SettledValues(cs), i)
  {
    assert !HasTileForMerge(cs[i - 1]);
  }

  lemma MovableIsUnstable(cs: seq<Cell>)
    requires Quiescent(cs) && CanMoveInGroup(cs)
    ensures !Stable(SettledValues(cs))
  {
    var i :| 1 <= i < |cs| && !IsEmpty(cs[i]) && CanAccept(cs[i - 1], cs[i].linkedTile.value);
    AcceptIffUnstableAt(cs, i);
  }

  lemma UnstableAtIsMovable(cs: seq<Cell>, i: nat)
    requires Quiescent(cs) && 1 <= i < |cs|
    requires !StaysAt(SettledValues(cs), i)
    ensures CanMoveInGroup(cs)
  {
    AcceptIffUnstableAt(cs, i);
  }

  lemma UnstableIsMovable(cs: seq<Cell>)
    requires Quiescent(cs) && !Stable(SettledValues(cs))
    ensures CanMoveInGroup(cs)
  {
    var vs := SettledValues(cs);
    var i :| 1 <= i < |vs| && !StaysAt(vs, i);
    UnstableAtIsMovable(cs, i);
  }

  /** Between moves, `canMoveInGroup` holds exactly when the group's values
      are not a stable line. */
  lemma CanMoveIffUnstable(cs: seq<Cell>)
    requires Quiescent(cs)
    ensures CanMoveInGroup(cs) <==> !Stable(SettledValues(cs))
  {
    if CanMoveInGroup(cs) {
      MovableIsUnstable(cs);
    }
    if !Stable(SettledValues(cs)) {
      UnstableIsMovable(cs);
    }
  }

  /** The settled values once every pending merge is committed. */
  function CommittedLine(cs: seq<Cell>): (vs: seq<Option<nat>>)
    ensures |vs| == |cs|
    ensures forall m | 0 <= m < |cs| :: vs[m] == Committed(Content(cs[m]))
  {
    seq(|cs|, m requires 0 <= m < |cs| => Committed(Content(cs[m])))
  }

  /** After the loop the group's tiles sit at its front, and every cell holds
      at most one pending tile, of its own settled value. */
  lemma MovedGroupIsPacked(cs: seq<Cell>)
    requires Quiescent(cs)
    ensures var r := MoveTilesInGroup(cs);
      forall m, m' | 0 <= m < m' < |r| :: IsEmpty(r[m]) ==> IsEmpty(r[m'])
    ensures var r := MoveTilesInGroup(cs);
      forall m | 0 <= m < |r| :: Coherent(r[m])
  {
    var r := MoveTilesInGroup(cs);
    var st := Stack(SettledValues(cs));
    MoveTilesInGroupIsStack(cs);
    forall m | 0 <= m < |r|
      ensures Content(r[m]) == if m < |st| then st[m] else Vacant
    {
      assert Contents(r)[m] == Content(r[m]);
    }
  }

  /** Moving a group and committing its merges gives the reference slide of
      its values. */
  lemma GroupMoveIsSlide(cs: seq<Cell>)
    requires Quiescent(cs)
    ensures CommittedLine(MoveTilesInGroup(cs)) == SlideValues(SettledValues(cs))
  {
    var r := MoveTilesInGroup(cs);
    MoveTilesInGroupIsStack(cs);
    forall m | 0 <= m < |r|
      ensures CommittedLine(r)[m] == SlideValues(SettledValues(cs))[m]
    {
      assert Contents(r)[m] == Content(r[m]);
    }
  }

  /** Legality is exactly "the move changes the group": `canMoveInGroup` holds
      if and only if moving and committing changes some settled value. */
  lemma GroupLegalIffChanged(cs: seq<Cell>)
    requires Quiescent(cs)
    ensures CanMoveInGroup(cs) <==> CommittedLine(MoveTilesInGroup(cs)) != SettledValues(cs)
  {
    var vs := SettledValues(cs);
    GroupMoveIsSlide(cs);
    CanMoveIffUnstable(cs);
    if Stable(vs) {
      StableIsFixed(vs);
    } else {
      UnstableMoves(vs);
    }
  }

  /** Moving a group keeps the sum of its values, and each merge leaves one
      tile fewer. */
  lemma GroupMoveConserves(cs: seq<Cell>)
    requires Quiescent(cs)
    ensures Sum(CommittedLine(MoveTilesInGroup(cs))) == Sum(SettledValues(cs))
    ensures Count(CommittedLine(MoveTilesInGroup(cs)))
         == Count(SettledValues(cs)) - Merges(Stack(SettledValues(cs)))
  {
    GroupMoveIsSlide(cs);
    SlideConserves(SettledValues(cs));
  }
}
