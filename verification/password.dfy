/**
  The safe dial (day 1).  The dial shows a position `0 .. 99` and starts at
  50.  Each rotation turns it one click at a time, left (`L`, towards lower
  numbers) or right, wrapping around modulo 100.  The password counts the
  times the dial points at 0: in the normal mode only where a rotation
  ends, in the click mode after every click.
 */
module Safe {

  /** One input line: a direction character and a distance.  The distance
      is `int(line[1:])`; a negative one turns the dial by no clicks. */
  datatype Rotation = Rotation(direction: char, distance: int)

  /** The dial's position and the number of times it has been counted at 0. */
  datatype Dial = Dial(position: int, count: nat)

  const Start := Dial(50, 0)

  /** `L` turns towards lower numbers; any other character towards higher. */
  function StepOf(direction: char): int
  {
    if direction == 'L' then -1 else 1
  }

  /** One click.  Python's `%` with a positive modulus is never negative,
      like Dafny's, so a click left from 0 shows 99. */
  function Click(position: int, step: int): (p: int)
    ensures 0 <= p < 100
  {
    (position + step) % 100
  }

  /** The remaining clicks `i .. distance-1` of one rotation.  A click that
      shows 0 is counted in the click mode, and in the normal mode only if
      it is the rotation's last. */
  function Spin(dial: Dial, step: int, distance: int, i: nat, countClicks: bool): Dial
    decreases distance - i
  {
    if i >= distance then dial
    else
      var p := Click(dial.position, step);
      var c := if p == 0 && (countClicks || i == distance - 1) then dial.count + 1 else dial.count;
      Spin(Dial(p, c), step, distance, i + 1, countClicks)
  }

  function Rotate(dial: Dial, r: Rotation, countClicks: bool): Dial
  {
    Spin(dial, StepOf(r.direction), r.distance, 0, countClicks)
  }

  /** The dial after the rotations, in order. */
  function Run(dial: Dial, rotations: seq<Rotation>, countClicks: bool): Dial
  {
    if |rotations| == 0 then dial
    else Rotate(Run(dial, rotations[..|rotations| - 1], countClicks), rotations[|rotations| - 1], countClicks)
  }

  function Password(rotations: seq<Rotation>, countClicks: bool): nat
  {
    Run(Start, rotations, countClicks).count
  }

  /** `solve_safe` over already-read rotations. */
  method SolveSafe(rotations: seq<Rotation>, countClicks: bool) returns (count: nat)
    ensures count == Password(rotations, countClicks)
  {
    var position := 50;
    count := 0;
    for k := 0 to |rotations|
      invariant Dial(position, count) == Run(Start, rotations[..k], countClicks)
    {
      assert rotations[..k + 1][..k] == rotations[..k];
      var r := rotations[k];
      var step := StepOf(r.direction);
      ghost var after := Rotate(Dial(position, count), r, countClicks);
      var i := 0;
      while i < r.distance
        invariant Spin(Dial(position, count), step, r.distance, i, countClicks) == after
        decreases r.distance - i
      {
        position := (position + step) % 100;
        if position == 0 {
          if countClicks || i == r.distance - 1 {
            count := count + 1;
          }
        }
        i := i + 1;
      }
    }
    assert rotations[..|rotations|] == rotations;
  }

  /** The total turn of the remaining clicks, as a signed number of clicks. */
  function Travel(step: int, distance: int, i: nat): int
  {
    if i >= distance then 0 else step * (distance - i)
  }

  /** After the remaining clicks the position is the start moved by the
      total turn, modulo 100, whatever the mode. */
  lemma {:induction false} SpinPosition(dial: Dial, step: int, distance: int, i: nat, countClicks: bool)
    ensures Spin(dial, step, distance, i, countClicks).position ==
      if i >= distance then dial.position else (dial.position + Travel(step, distance, i)) % 100
    decreases distance - i
  {
    if i < distance {
      var p := Click(dial.position, step);
      var c := if p == 0 && (countClicks || i == distance - 1) then dial.count + 1 else dial.count;
      SpinPosition(Dial(p, c), step, distance, i + 1, countClicks);
      if i + 1 < distance {
        assert Travel(step, distance, i) == step + Travel(step, distance, i + 1);
        ModAdd(dial.position + step, Travel(step, distance, i + 1));
      }
    }
  }

  /** Reducing a summand modulo 100 first does not change the sum modulo 100. */
  lemma ModAdd(a: int, b: int)
    ensures (a % 100 + b) % 100 == (a + b) % 100
  {
    var q := a / 100;
    assert a == 100 * q + a % 100;
    assert a + b == (a % 100 + b) + 100 * q;
  }

  /** After a rotation of distance `d` from position `p` the dial shows
      `(p + step * d) mod 100`. */
  lemma RotatePosition(dial: Dial, r: Rotation, countClicks: bool)
    requires r.distance > 0
    ensures Rotate(dial, r, countClicks).position == (dial.position + StepOf(r.direction) * r.distance) % 100
  {
    SpinPosition(dial, StepOf(r.direction), r.distance, 0, countClicks);
  }

  /** A rotation of distance 0 (or less) changes neither position nor count. */
  lemma NoTurnNoChange(dial: Dial, r: Rotation, countClicks: bool)
    requires r.distance <= 0
    ensures Rotate(dial, r, countClicks) == dial
  {
  }

  /** The position stays in `0 .. 99` from the start onwards. */
  lemma {:induction false} RunInRange(rotations: seq<Rotation>, countClicks: bool)
    ensures 0 <= Run(Start, rotations, countClicks).position < 100
  {
    if |rotations| > 0 {
      var before := Run(Start, rotations[..|rotations| - 1], countClicks);
      RunInRange(rotations[..|rotations| - 1], countClicks);
      var r := rotations[|rotations| - 1];
      SpinPosition(before, StepOf(r.direction), r.distance, 0, countClicks);
    }
  }

  /** In the normal mode a rotation is counted once exactly when it turns
      the dial and ends at 0. */
  lemma {:induction false} SpinNormal(dial: Dial, step: int, distance: int, i: nat)
    ensures var after := Spin(dial, step, distance, i, false);
      after.count == dial.count + (if i < distance && after.position == 0 then 1 else 0)
    decreases distance - i
  {
    if i < distance {
      var p := Click(dial.position, step);
      var c := if p == 0 && i == distance - 1 then dial.count + 1 else dial.count;
      SpinNormal(Dial(p, c), step, distance, i + 1);
    }
  }

  lemma RotateNormal(dial: Dial, r: Rotation)
    ensures var after := Rotate(dial, r, false);
      after.count == dial.count + (if r.distance > 0 && after.position == 0 then 1 else 0)
  {
    SpinNormal(dial, StepOf(r.direction), r.distance, 0);
  }

  /** The number of clicks `i+1 .. distance` after which the dial, turned
      from `position`, shows 0. */
  function ZeroHits(position: int, step: int, distance: int, i: nat): nat
    decreases distance - i
  {
    if i >= distance then 0
    else (if (position + step * (i + 1)) % 100 == 0 then 1 else 0) + ZeroHits(position, step, distance, i + 1)
  }

  /** In the click mode a rotation counts every click that shows 0. */
  lemma {:induction false} SpinClicks(dial: Dial, step: int, distance: int, i: nat, origin: int)
    requires dial.position == (origin + step * i) % 100
    ensures Spin(dial, step, distance, i, true).count == dial.count + ZeroHits(origin, step, distance, i)
    decreases distance - i
  {
    if i < distance {
      var p := Click(dial.position, step);
      ModAdd(origin + step * i, step);
      assert p == (origin + step * (i + 1)) % 100;
      var c := if p == 0 then dial.count + 1 else dial.count;
      SpinClicks(Dial(p, c), step, distance, i + 1, origin);
    }
  }

  lemma RotateClicks(dial: Dial, r: Rotation)
    requires 0 <= dial.position < 100
    ensures Rotate(dial, r, true).count == dial.count + ZeroHits(dial.position, StepOf(r.direction), r.distance, 0)
  {
    SpinClicks(dial, StepOf(r.direction), r.distance, 0, dial.position);
  }

  /** The mode changes only the count, never the position, and the click
      mode counts at least as often as the normal mode. */
  lemma {:induction false} SpinModes(p: int, c1: nat, c2: nat, step: int, distance: int, i: nat)
    requires c1 >= c2
    ensures var a, b := Spin(Dial(p, c1), step, distance, i, true), Spin(Dial(p, c2), step, distance, i, false);
      a.position == b.position && a.count - c1 >= b.count - c2
    decreases distance - i
  {
    if i < distance {
      var q := Click(p, step);
      var d1 := if q == 0 then c1 + 1 else c1;
      var d2 := if q == 0 && i == distance - 1 then c2 + 1 else c2;
      SpinModes(q, d1, d2, step, distance, i + 1);
    }
  }

  lemma {:induction false} RunModes(rotations: seq<Rotation>)
    ensures Run(Start, rotations, true).position == Run(Start, rotations, false).position
    ensures Run(Start, rotations, true).count >= Run(Start, rotations, false).count
  {
    if |rotations| > 0 {
      var init := rotations[..|rotations| - 1];
      RunModes(init);
      var a, b := Run(Start, init, true), Run(Start, init, false);
      var r := rotations[|rotations| - 1];
      SpinModes(a.position, a.count, b.count, StepOf(r.direction), r.distance, 0);
    }
  }

  /** For the same rotations the click-mode password is never below the
      normal-mode password. */
  lemma ClickModeCountsMore(rotations: seq<Rotation>)
    ensures Password(rotations, true) >= Password(rotations, false)
  {
    RunModes(rotations);
  }

  /** The signed number of clicks of all rotations together. */
  function Offset(rotations: seq<Rotation>): int
  {
    if |rotations| == 0 then 0
    else
      var r := rotations[|rotations| - 1];
      Offset(rotations[..|rotations| - 1]) + (if r.distance > 0 then StepOf(r.direction) * r.distance else 0)
  }

  /** The dial shows 50 moved by the total signed number of clicks, modulo 100. */
  lemma {:induction false} RunPosition(rotations: seq<Rotation>, countClicks: bool)
    ensures Run(Start, rotations, countClicks).position == (50 + Offset(rotations)) % 100
  {
    if |rotations| > 0 {
      var init := rotations[..|rotations| - 1];
      RunPosition(init, countClicks);
      var before := Run(Start, init, countClicks);
      var r := rotations[|rotations| - 1];
      if r.distance > 0 {
        RotatePosition(before, r, countClicks);
        ModAdd(50 + Offset(init), StepOf(r.direction) * r.distance);
      }
    }
  }

  /** The number of rotations that turn the dial and leave it at 0. */
  function Landings(rotations: seq<Rotation>): nat
  {
    if |rotations| == 0 then 0
    else
      Landings(rotations[..|rotations| - 1]) +
      (if rotations[|rotations| - 1].distance > 0 && (50 + Offset(rotations)) % 100 == 0 then 1 else 0)
  }

  /** The normal-mode password is the number of rotations that end at 0,
      so it never exceeds the number of rotations. */
  lemma {:induction false} NormalModeCountsLandings(rotations: seq<Rotation>)
    ensures Password(rotations, false) == Landings(rotations)
    ensures Landings(rotations) <= |rotations|
  {
    if |rotations| > 0 {
      var init := rotations[..|rotations| - 1];
      NormalModeCountsLandings(init);
      RotateNormal(Run(Start, init, false), rotations[|rotations| - 1]);
      RunPosition(rotations, false);
    }
  }
}
