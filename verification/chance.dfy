/** The two uses both engines make of `Math.random()`: picking an index into
    a list of `n` candidates as `Math.floor(Math.random() * n)`, and choosing
    the value of a new tile. The random draw itself is a parameter `roll` in
    the half-open interval [0, 1). */
module Chance {

  predicate IsRoll(roll: real) {
    0.0 <= roll < 1.0
  }

  /** The index `Math.floor(roll * n)`: always a valid position when there is
      at least one candidate, and 0 (one past the end) when there is none. */
  function PickIndex(n: nat, roll: real): (k: nat)
    requires IsRoll(roll)
    ensures n > 0 ==> k < n
    ensures n == 0 ==> k == 0
  {
    var r := roll * (n as real);
    assert 0.0 <= r by {
      assert 0.0 <= roll && 0.0 <= n as real;
    }
    assert n > 0 ==> r < n as real by {
      if n > 0 {
        assert roll * (n as real) < 1.0 * (n as real);
      }
    }
    r.Floor
  }

  /** `Math.random() > 0.5 ? 2 : 4`: the value of a freshly spawned tile. */
  function SpawnValue(roll: real): (v: nat)
    ensures v == 2 || v == 4
    ensures v == 2 <==> roll > 0.5
  {
    if roll > 0.5 then 2 else 4
  }
}
