/** The score counter of the object-oriented engine (`Score` in src/score.ts
    and its twin oopJS/score.js). Both versions keep one number and refresh a
    display element after every change; the display is left out. */
module Scores {

  datatype Score = Score(points: int)

  /** `new Score()`: a fresh counter. */
  function NewScore(): (s: Score)
    ensures s.points == 0
  {
    Score(0)
  }

  /** `addScore(points)`. */
  function AddScore(s: Score, p: int): (r: Score)
    ensures r.points - s.points == p
  {
    Score(s.points + p)
  }

  /** `resetScore()`. */
  function ResetScore(s: Score): (r: Score)
    ensures r.points == 0
  {
    Score(0)
  }

  /** A history of calls made on one counter. */
  datatype ScoreEvent = Add(points: int) | Reset

  function Apply(s: Score, e: ScoreEvent): Score {
    match e
    case Add(p) => AddScore(s, p)
    case Reset => ResetScore(s)
  }

  /** The counter after the calls in `events`, first to last. */
  function Replay(s: Score, events: seq<ScoreEvent>): Score
    decreases |events|
  {
    if |events| == 0 then s else Replay(Apply(s, events[0]), events[1..])
  }

  /** The total of the additions in `events`, resets contributing nothing. */
  function AddedPoints(events: seq<ScoreEvent>): int
    decreases |events|
  {
    if |events| == 0 then 0
    else (if events[0].Add? then events[0].points else 0) + AddedPoints(events[1..])
  }

  predicate NoReset(events: seq<ScoreEvent>) {
    forall i | 0 <= i < |events| :: events[i].Add?
  }

  predicate OnlyGains(events: seq<ScoreEvent>) {
    forall i | 0 <= i < |events| :: events[i].Add? && events[i].points >= 0
  }

  /** Without a reset, the counter moves by exactly the sum of the additions. */
  lemma {:induction false} ReplayWithoutReset(s: Score, events: seq<ScoreEvent>)
    requires NoReset(events)
    ensures Replay(s, events).points == s.points + AddedPoints(events)
    decreases |events|
  {
    if |events| > 0 {
      assert events[0].Add?;
      assert NoReset(events[1..]) by {
        forall i | 0 <= i < |events[1..]| ensures events[1..][i].Add? {
          assert events[1..][i] == events[i + 1];
        }
      }
      ReplayWithoutReset(Apply(s, events[0]), events[1..]);
    }
  }

  lemma {:induction false} GainsAreNonNegative(events: seq<ScoreEvent>)
    requires OnlyGains(events)
    ensures AddedPoints(events) >= 0
    decreases |events|
  {
    if |events| > 0 {
      assert OnlyGains(events[1..]) by {
        forall i | 0 <= i < |events[1..]|
          ensures events[1..][i].Add? && events[1..][i].points >= 0
        {
          assert events[1..][i] == events[i + 1];
        }
      }
      GainsAreNonNegative(events[1..]);
    }
  }

  /** With only non-negative additions (the merged values the cells feed in),
      the score never decreases. */
  lemma NeverDecreasesBetweenResets(s: Score, events: seq<ScoreEvent>)
    requires OnlyGains(events)
    ensures Replay(s, events).points >= s.points
  {
    ReplayWithoutReset(s, events);
    GainsAreNonNegative(events);
  }

  lemma {:induction false} ReplayConcat(s: Score, a: seq<ScoreEvent>, b: seq<ScoreEvent>)
    ensures Replay(s, a + b) == Replay(Replay(s, a), b)
    decreases |a|
  {
    if |a| > 0 {
      assert (a + b)[0] == a[0];
      assert (a + b)[1..] == a[1..] + b;
      ReplayConcat(Apply(s, a[0]), a[1..], b);
      assert Replay(s, a + b) == Replay(Apply(s, a[0]), a[1..] + b);
      assert Replay(s, a) == Replay(Apply(s, a[0]), a[1..]);
    } else {
      assert a + b == b;
    }
  }

  /** After a reset, the score is exactly what was added since, whatever came
      before. */
  lemma ScoreSinceReset(s: Score, before: seq<ScoreEvent>, after: seq<ScoreEvent>)
    requires NoReset(after)
    ensures Replay(s, before + [Reset] + after).points == AddedPoints(after)
  {
    ReplayConcat(s, before + [Reset], after);
    ReplayConcat(s, before, [Reset]);
    ReplayWithoutReset(Replay(s, before + [Reset]), after);
  }
}
