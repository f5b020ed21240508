/**
  `solve_gf2_system`: the brute-force solver.  It counts through every
  press pattern, presses the buttons of each pattern from all lights off,
  and keeps the least number of presses among the patterns that light
  exactly the target.
 */
module BruteForce {
  import opened GF2
  import opened Lights

  /** The lights after pressing button `b` once from `state`, one listed
      index at a time; an index at or beyond the number of lights is skipped. */
  method Press(state: seq<bool>, b: Button) returns (s: seq<bool>)
    ensures s == PressButton(state, b)
    ensures forall i :: 0 <= i < |state| ==> s[i] == (state[i] != (Count(b, i) % 2 == 1))
  {
    s := state;
    for k := 0 to |b|
      invariant s == PressButton(state, b[..k])
    {
      assert b[..k + 1][..k] == b[..k];
      var l := b[k];
      if l < |s| {
        s := s[l := !s[l]];
      }
    }
    assert b[..|b|] == b;
  }

  /** The lights after pressing, from all lights off, every button whose
      bit in `presses` is set (the source's `result_state`). */
  method PressPattern(lights: nat, buttons: seq<Button>, presses: seq<bool>) returns (state: seq<bool>)
    requires |presses| == |buttons|
    ensures state == PressAll(lights, buttons, presses, |buttons|)
  {
    state := Zeros(lights);
    for j := 0 to |buttons|
      invariant state == PressAll(lights, buttons, presses, j)
    {
      if presses[j] {
        state := Press(state, buttons[j]);
      }
    }
  }

  /** The least number of presses under the toggle reading, `-1` when no
      pattern works, and infinity for a machine without buttons whose target
      has a light on. */
  method SolveBruteForce(target: seq<bool>, buttons: seq<Button>) returns (r: Answer)
    ensures r == Exhaustive(Toggle, target, buttons)
  {
    var lights, n := |target|, |buttons|;
    if n == 0 {
      return if true in target then Infinity else Presses(0);
    }
    var best: Best := NoneYet;
    var combination := 0;
    while combination < Pow2(n)
      invariant combination <= Pow2(n)
      invariant best == Search(n, Acceptor(Toggle, target, buttons), combination)
    {
      var presses := Bits(combination, n);
      var state := PressPattern(lights, buttons, presses);
      SearchStep(n, Acceptor(Toggle, target, buttons), combination);
      if state == target {
        var total := Weight(presses);
        if best.NoneYet? || total < best.weight {
          best := Found(total);
        }
      }
      combination := combination + 1;
    }
    r := if best.NoneYet? then Impossible else Presses(best.weight);
  }
}
