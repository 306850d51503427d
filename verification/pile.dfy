/** A reference definition of how one line of tiles slides toward its front,
    independent of the engine's walk-based loop: tiles are taken front to
    back and each one either merges into the last tile of a growing pile or
    is appended to it. The engine module proves that its loop computes this
    pile. */
module Pile {
  import opened Wrappers

  /** What a cell holds: the settled value and the pending (merging) value. */
  datatype Slots = Slots(settled: Option<nat>, pending: Option<nat>)

  const Vacant := Slots(None, None)

  /** The acceptance rule of the engine, read on contents. */
  predicate AcceptsValue(s: Slots, v: nat) {
    s.settled.None? || (s.pending.None? && s.settled == Some(v))
  }

  /** A packed pile: every entry settled, a pending value equal to its
      settled value, and no unmerged entry that its unmerged predecessor would
      still accept. */
  predicate Tidy(st: seq<Slots>) {
    forall m | 0 <= m < |st| ::
      && st[m].settled.Some?
      && (st[m].pending.Some? ==> st[m].pending == st[m].settled)
      && (m > 0 && st[m].pending.None? ==>
            !(st[m - 1].pending.None? && st[m - 1].settled == st[m].settled))
  }

  /** Whether the last entry of the pile takes a tile of value `v`. */
  predicate TopTakes(st: seq<Slots>, v: nat) {
    |st| > 0 && st[|st| - 1].pending.None? && st[|st| - 1].settled == Some(v)
  }

  /** Add a tile of value `v` behind the pile: it merges into the last entry
      when that entry is unmerged and equal, and is appended otherwise. */
  function Absorb(st: seq<Slots>, v: nat): (r: seq<Slots>)
    requires Tidy(st)
    ensures Tidy(r)
    ensures |r| > 0 && r[|r| - 1].settled == Some(v)
  {
    if TopTakes(st, v)
    then st[..|st| - 1] + [Slots(Some(v), Some(v))]
    else st + [Slots(Some(v), None)]
  }

  /** The pile built from a line of settled values, front to back. */
  function Stack(vs: seq<Option<nat>>): (st: seq<Slots>)
    ensures |st| <= |vs|
    ensures Tidy(st)
    decreases |vs|
  {
    if |vs| == 0 then []
    else
      var st := Stack(vs[..|vs| - 1]);
      match vs[|vs| - 1]
      case None => st
      case Some(v) => Absorb(st, v)
  }

  lemma StackStep(vs: seq<Option<nat>>, i: nat)
    requires i < |vs|
    ensures Stack(vs[..i + 1]) ==
      match vs[i]
      case None => Stack(vs[..i])
      case Some(v) => Absorb(Stack(vs[..i]), v)
  {
    assert vs[..i + 1][..i] == vs[..i];
  }

  /** The pile followed by empty cells up to length `n`. */
  function Pad(st: seq<Slots>, n: nat): (r: seq<Slots>)
    requires |st| <= n
    ensures |r| == n
    ensures forall m | 0 <= m < n :: r[m] == if m < |st| then st[m] else Vacant
  {
    st + seq(n - |st|, _ => Vacant)
  }

  /** The settled value of a cell once its pending merge is committed. */
  function Committed(s: Slots): Option<nat> {
    if s.settled.Some? && s.pending.Some?
    then Some(s.settled.value + s.pending.value)
    else s.settled
  }

  function CommittedValues(st: seq<Slots>): (vs: seq<Option<nat>>)
    ensures |vs| == |st|
    ensures forall m | 0 <= m < |st| :: vs[m] == Committed(st[m])
  {
    seq(|st|, m requires 0 <= m < |st| => Committed(st[m]))
  }

  function Nones(k: nat): (vs: seq<Option<nat>>)
    ensures |vs| == k && forall m | 0 <= m < k :: vs[m] == None
  {
    seq(k, _ => None)
  }

  /** The line after a move and its merge commit, by the reference. */
  function SlideValues(vs: seq<Option<nat>>): (r: seq<Option<nat>>)
    ensures |r| == |vs|
    ensures forall m | 0 <= m < |vs| ::
      r[m] == Committed(if m < |Stack(vs)| then Stack(vs)[m] else Vacant)
  {
    CommittedValues(Stack(vs)) + Nones(|vs| - |Stack(vs)|)
  }

  // ---------------------------------------------------------------------
  // Counting

  /** Number of tiles in a line. */
  function Count(vs: seq<Option<nat>>): (k: nat)
    ensures k <= |vs|
    decreases |vs|
  {
    if |vs| == 0 then 0
    else Count(vs[..|vs| - 1]) + (if vs[|vs| - 1].Some? then 1 else 0)
  }

  /** Sum of the tile values in a line. */
  function Sum(vs: seq<Option<nat>>): nat
    decreases |vs|
  {
    if |vs| == 0 then 0
    else Sum(vs[..|vs| - 1]) + (if vs[|vs| - 1].Some? then vs[|vs| - 1].value else 0)
  }

  function SlotsValue(s: Slots): nat {
    (if s.settled.Some? then s.settled.value else 0)
      + (if s.pending.Some? then s.pending.value else 0)
  }

  /** The points a slot scores when its pending tile is committed onto the
      settled one. */
  function SlotGain(s: Slots): nat {
    if s.settled.Some? && s.pending.Some? then s.settled.value + s.pending.value else 0
  }

  /** Sum of every value in a pile, settled and pending. */
  function Total(st: seq<Slots>): nat
    decreases |st|
  {
    if |st| == 0 then 0 else Total(st[..|st| - 1]) + SlotsValue(st[|st| - 1])
  }

  /** Number of pending merges in a pile. */
  function Merges(st: seq<Slots>): nat
    decreases |st|
  {
    if |st| == 0 then 0
    else Merges(st[..|st| - 1]) + (if st[|st| - 1].pending.Some? then 1 else 0)
  }

  lemma AbsorbCounts(st: seq<Slots>, v: nat)
    requires Tidy(st)
    ensures Total(Absorb(st, v)) == Total(st) + v
    ensures |Absorb(st, v)| + Merges(Absorb(st, v)) == |st| + Merges(st) + 1
    ensures Merges(Absorb(st, v)) >= Merges(st)
  {
    var r := Absorb(st, v);
    if TopTakes(st, v) {
      var n := |st|;
      assert r[..n - 1] == st[..n - 1];
      assert st[..n][..n - 1] == st[..n - 1];
      assert st[..n] == st;
    } else {
      assert r[..|st|] == st;
    }
  }

  /** The pile keeps the line's sum, and has one entry fewer per merge. */
  lemma {:induction false} StackCounts(vs: seq<Option<nat>>)
    ensures Total(Stack(vs)) == Sum(vs)
    ensures |Stack(vs)| + Merges(Stack(vs)) == Count(vs)
    decreases |vs|
  {
    if |vs| > 0 {
      var front := vs[..|vs| - 1];
      StackCounts(front);
      match vs[|vs| - 1]
      case None =>
      case Some(v) =>
        AbsorbCounts(Stack(front), v);
    }
  }

  lemma {:induction false} CommittedSum(st: seq<Slots>)
    requires Tidy(st)
    ensures Sum(CommittedValues(st)) == Total(st)
    ensures Count(CommittedValues(st)) == |st|
    decreases |st|
  {
    if |st| > 0 {
      var front := st[..|st| - 1];
      assert Tidy(front);
      assert CommittedValues(st)[..|st| - 1] == CommittedValues(front);
      CommittedSum(front);
    }
  }

  lemma {:induction false} NonesAddNothing(vs: seq<Option<nat>>, k: nat)
    ensures Sum(vs + Nones(k)) == Sum(vs)
    ensures Count(vs + Nones(k)) == Count(vs)
    decreases k
  {
    if k == 0 {
      assert vs + Nones(0) == vs;
    } else {
      assert (vs + Nones(k))[..|vs| + k - 1] == vs + Nones(k - 1);
      NonesAddNothing(vs, k - 1);
    }
  }

  /** Sliding a line keeps the sum of its values, and a line with `k` merges
      ends with `k` tiles fewer. */
  lemma SlideConserves(vs: seq<Option<nat>>)
    ensures Sum(SlideValues(vs)) == Sum(vs)
    ensures Count(SlideValues(vs)) == Count(vs) - Merges(Stack(vs))
  {
    var st := Stack(vs);
    StackCounts(vs);
    CommittedSum(st);
    NonesAddNothing(CommittedValues(st), |vs| - |st|);
  }

  // ---------------------------------------------------------------------
  // Lines that a slide leaves alone

  /** A line no slide can change: every tile has a tile in front of it (or is
      at the front) and differs from that tile. */
  predicate Stable(vs: seq<Option<nat>>) {
    forall i | 1 <= i < |vs| :: StaysAt(vs, i)
  }

  /** The tile at position `i`, if any, has a different tile right in front. */
  predicate StaysAt(vs: seq<Option<nat>>, i: nat)
    requires 1 <= i < |vs|
  {
    vs[i].Some? ==> vs[i - 1].Some? && vs[i - 1] != vs[i]
  }

  lemma {:induction false} StableStack(vs: seq<Option<nat>>)
    requires Stable(vs)
    ensures |Stack(vs)| == Count(vs)
    ensures forall m | 0 <= m < |Stack(vs)| :: Stack(vs)[m] == Slots(vs[m], None)
    ensures forall m | |Stack(vs)| <= m < |vs| :: vs[m] == None
    decreases |vs|
  {
    if |vs| > 0 {
      var n := |vs|;
      var front := vs[..n - 1];
      forall i | 1 <= i < |front| ensures StaysAt(front, i) {
        assert StaysAt(vs, i);
      }
      StableStack(front);
      var st := Stack(front);
      match vs[n - 1]
      case None =>
      case Some(v) =>
        if n >= 2 {
          assert StaysAt(vs, n - 1);
          assert front[n - 2] == vs[n - 2];
          assert |st| == n - 1;
        }
        assert !TopTakes(st, v);
    }
  }

  /** Stable lines are exactly the fixed points of a slide. */
  lemma StableIsFixed(vs: seq<Option<nat>>)
    requires Stable(vs)
    ensures SlideValues(vs) == vs
  {
    StableStack(vs);
  }

  /** A merge that happened in a prefix of the line stays in the pile. */
  lemma {:induction false} MergesGrow(vs: seq<Option<nat>>, j: nat, k: nat)
    requires j <= k <= |vs|
    ensures Merges(Stack(vs[..j])) <= Merges(Stack(vs[..k]))
    decreases k - j
  {
    if j < k {
      MergesGrow(vs, j, k - 1);
      StackStep(vs, k - 1);
      match vs[k - 1]
      case None =>
      case Some(v) =>
        AbsorbCounts(Stack(vs[..k - 1]), v);
    }
  }

  /** A tile that meets an equal tile at the top of the pile leaves a merge
      in the pile, whether it merges itself or the top had merged before. */
  lemma AbsorbEqualMerges(st: seq<Slots>, v: nat)
    requires Tidy(st) && |st| > 0 && st[|st| - 1].settled == Some(v)
    ensures Merges(Absorb(st, v)) >= 1
  {
    var r := Absorb(st, v);
    if !TopTakes(st, v) {
      assert st[|st| - 1].pending.Some?;
      assert Merges(st) >= 1;
      AbsorbCounts(st, v);
    } else {
      assert r[|r| - 1].pending.Some?;
    }
  }

  /** After a tile is taken in, it is the settled value on top of the pile. */
  lemma TileOnTop(vs: seq<Option<nat>>, j: nat)
    requires j < |vs| && vs[j].Some?
    ensures |Stack(vs[..j + 1])| > 0
    ensures Stack(vs[..j + 1])[|Stack(vs[..j + 1])| - 1].settled == vs[j]
  {
    StackStep(vs, j);
  }

  /** Two equal tiles next to each other always produce a merge. */
  lemma AdjacentEqualMerges(vs: seq<Option<nat>>, i: nat)
    requires 1 <= i < |vs| && vs[i].Some? && vs[i - 1] == vs[i]
    ensures Merges(Stack(vs)) >= 1
  {
    var v := vs[i].value;
    TileOnTop(vs, i - 1);
    assert Merges(Stack(vs[..i + 1])) >= 1 by {
      StackStep(vs, i);
      AbsorbEqualMerges(Stack(vs[..i]), v);
    }
    MergesGrow(vs, i + 1, |vs|);
    assert vs[..|vs|] == vs;
  }

  /** Every line that is not stable is changed by a slide. */
  lemma UnstableMoves(vs: seq<Option<nat>>)
    requires !Stable(vs)
    ensures SlideValues(vs) != vs
  {
    var i :| 1 <= i < |vs| && !StaysAt(vs, i);
    var r := SlideValues(vs);
    if vs[i - 1].None? {
      assert r[i].Some? ==> r[i - 1].Some?;
    } else {
      AdjacentEqualMerges(vs, i);
      SlideConserves(vs);
    }
  }

  lemma {:induction false} FullLineHasNoGap(vs: seq<Option<nat>>)
    requires Count(vs) == |vs|
    ensures forall m | 0 <= m < |vs| :: vs[m].Some?
    decreases |vs|
  {
    if |vs| > 0 {
      var front := vs[..|vs| - 1];
      FullLineHasNoGap(front);
      forall m | 0 <= m < |vs| ensures vs[m].Some? {
        if m < |vs| - 1 {
          assert front[m] == vs[m];
        }
      }
    }
  }

  /** After a slide that changes the line, some cell of the line is empty. */
  lemma UnstableFreesACell(vs: seq<Option<nat>>)
    requires !Stable(vs)
    ensures |Stack(vs)| < |vs|
    ensures SlideValues(vs)[|Stack(vs)|] == None
  {
    StackCounts(vs);
    if Count(vs) == |vs| {
      FullLineHasNoGap(vs);
      var i :| 1 <= i < |vs| && !StaysAt(vs, i);
      AdjacentEqualMerges(vs, i);
    }
  }

  // ---------------------------------------------------------------------
  // The examples of the game's rules

  /** One cell of a line taken into the pile: an empty cell adds nothing. */
  function Push(st: seq<Slots>, c: Option<nat>): (r: seq<Slots>)
    requires Tidy(st)
    ensures Tidy(r)
  {
    match c
    case None => st
    case Some(v) => Absorb(st, v)
  }

  /** The pile of a four-cell line, one cell at a time. */
  lemma StackOfFour(vs: seq<Option<nat>>)
    requires |vs| == 4
    ensures Stack(vs) == Push(Push(Push(Push([], vs[0]), vs[1]), vs[2]), vs[3])
  {
    assert vs[..1][..0] == [];
    StackStep(vs, 1);
    StackStep(vs, 2);
    StackStep(vs, 3);
    assert vs[..4] == vs;
  }

  /** Reads the slid line off the pile of a four-cell line. */
  lemma SlideOfFour(vs: seq<Option<nat>>, st: seq<Slots>, r: seq<Option<nat>>)
    requires |vs| == 4 && Stack(vs) == st
    requires |r| == 4
    requires forall m | 0 <= m < 4 :: r[m] == Committed(if m < |st| then st[m] else Vacant)
    ensures SlideValues(vs) == r
  {
    var s := SlideValues(vs);
    assert forall m | 0 <= m < 4 :: s[m] == r[m];
  }

  /** Two 2s make one merged entry. */
  lemma PushTwos()
    ensures Push(Push([], Some(2)), Some(2)) == [Slots(Some(2), Some(2))]
  {
    assert !TopTakes([], 2);
    assert TopTakes([Slots(Some(2), None)], 2);
  }

  /** A tile behind a merged entry is appended, never merged. */
  lemma PushBehindMerged(v: nat)
    ensures Push([Slots(Some(2), Some(2))], Some(v)) ==
      [Slots(Some(2), Some(2)), Slots(Some(v), None)]
  {
    assert !TopTakes([Slots(Some(2), Some(2))], v);
  }

  /** A 2 behind an unmerged 2 merges into it. */
  lemma PushOntoTwo()
    ensures Push([Slots(Some(2), Some(2)), Slots(Some(2), None)], Some(2)) ==
      [Slots(Some(2), Some(2)), Slots(Some(2), Some(2))]
  {
    var st := [Slots(Some(2), Some(2)), Slots(Some(2), None)];
    assert TopTakes(st, 2);
    assert st[..1] == [Slots(Some(2), Some(2))];
  }

  /** [2,2,_,_] gives [4,_,_,_]. */
  lemma SlidePair(a: seq<Option<nat>>)
    requires |a| == 4 && a[0] == Some(2) && a[1] == Some(2) && a[2] == None && a[3] == None
    ensures SlideValues(a) == [Some(4), None, None, None]
  {
    var st := [Slots(Some(2), Some(2))];
    assert Stack(a) == st by {
      StackOfFour(a);
      PushTwos();
    }
    SlideOfFour(a, st, [Some(4), None, None, None]);
  }

  /** [2,2,2,_] gives [4,2,_,_]: the third tile does not merge into the tile
      that has just absorbed the second. */
  lemma SlideTriple(a: seq<Option<nat>>)
    requires |a| == 4 && a[0] == Some(2) && a[1] == Some(2) && a[2] == Some(2) && a[3] == None
    ensures SlideValues(a) == [Some(4), Some(2), None, None]
  {
    var st := [Slots(Some(2), Some(2)), Slots(Some(2), None)];
    assert Stack(a) == st by {
      StackOfFour(a);
      PushTwos();
      PushBehindMerged(2);
    }
    SlideOfFour(a, st, [Some(4), Some(2), None, None]);
  }

  /** [2,2,2,2] gives [4,4,_,_]. */
  lemma SlideQuadruple(a: seq<Option<nat>>)
    requires |a| == 4 && a[0] == Some(2) && a[1] == Some(2) && a[2] == Some(2) && a[3] == Some(2)
    ensures SlideValues(a) == [Some(4), Some(4), None, None]
  {
    var st := [Slots(Some(2), Some(2)), Slots(Some(2), Some(2))];
    assert Stack(a) == st by {
      StackOfFour(a);
      PushTwos();
      PushBehindMerged(2);
      PushOntoTwo();
    }
    SlideOfFour(a, st, [Some(4), Some(4), None, None]);
  }

  /** [2,2,4,_] gives [4,4,_,_]: the merged 4 does not absorb the other 4. */
  lemma SlideNoChain(a: seq<Option<nat>>)
    requires |a| == 4 && a[0] == Some(2) && a[1] == Some(2) && a[2] == Some(4) && a[3] == None
    ensures SlideValues(a) == [Some(4), Some(4), None, None]
  {
    var st := [Slots(Some(2), Some(2)), Slots(Some(4), None)];
    assert Stack(a) == st by {
      StackOfFour(a);
      PushTwos();
      PushBehindMerged(4);
    }
    SlideOfFour(a, st, [Some(4), Some(4), None, None]);
  }
}
