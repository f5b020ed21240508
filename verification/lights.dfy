/**
  Indicator lights and buttons (2025 day 10).  A machine has `L` lights,
  all off at the start, and a list of buttons; each button is the list of
  light indices it toggles.  The question is the least number of presses
  that lights exactly the target pattern.

  The source reads a button list in two different ways:
  - the brute-force solver flips light `i` once per occurrence of `i` in the
    button's list (`Toggle`), so a light listed twice is flipped twice;
  - the Gaussian solver sets matrix cell `(i, j)` to 1 when button `j` lists
    `i` at least once (`Membership`).
  The readings agree on buttons without repeated indices.
 */
module Lights {
  import opened GF2

  /** A button: the light indices it toggles, in the order listed.  Indices
      at or beyond the number of lights are ignored by both readings. */
  type Button = seq<nat>

  /** A solver's answer: `Presses(k)` is the least number of presses,
      `Impossible` is the source's `-1`, and `Infinity` is the source's
      `float('inf')`, returned only when there are no buttons and the target
      has a light on. */
  datatype Answer = Presses(count: nat) | Impossible | Infinity

  datatype Effect = Toggle | Membership

  /** The least weight seen so far by a search; `NoneYet` plays the role of
      the source's initial `float('inf')`. */
  datatype Best = NoneYet | Found(weight: nat)

  /** Occurrences of light `i` in button `b`. */
  function Count(b: Button, i: nat): nat
  {
    if |b| == 0 then 0 else Count(b[..|b| - 1], i) + (if b[|b| - 1] == i then 1 else 0)
  }

  predicate NoRepeats(b: Button)
  {
    forall p, q :: 0 <= p < q < |b| ==> b[p] != b[q]
  }

  predicate NoDuplicates(buttons: seq<Button>)
  {
    forall j :: 0 <= j < |buttons| ==> NoRepeats(buttons[j])
  }

  /** Flip light `l` if it exists. */
  function Flip(state: seq<bool>, l: nat): seq<bool>
  {
    if l < |state| then state[l := !state[l]] else state
  }

  /** Press one button: flip each listed light once per listing. */
  function PressButton(state: seq<bool>, b: Button): (s: seq<bool>)
    ensures |s| == |state|
    ensures forall i :: 0 <= i < |state| ==> s[i] == (state[i] != (Count(b, i) % 2 == 1))
  {
    if |b| == 0 then state else Flip(PressButton(state, b[..|b| - 1]), b[|b| - 1])
  }

  /** Light `i` under the toggle reading: does button `j` flip it an odd number of times? */
  function ParityRow(buttons: seq<Button>, i: nat): (row: seq<bool>)
    ensures |row| == |buttons|
  {
    seq(|buttons|, j requires 0 <= j < |buttons| => Count(buttons[j], i) % 2 == 1)
  }

  /** The lights after pressing, in order, each of the first `k` buttons
      whose bit in `x` is set, starting from all lights off. */
  function PressAll(numLights: nat, buttons: seq<Button>, x: seq<bool>, k: nat): (s: seq<bool>)
    requires k <= |buttons| && k <= |x|
    ensures |s| == numLights
    ensures forall i :: 0 <= i < numLights ==> s[i] == DotRange(ParityRow(buttons, i), x, 0, k)
  {
    if k == 0 then Zeros(numLights)
    else
      var s := PressAll(numLights, buttons, x, k - 1);
      if x[k - 1] then PressButton(s, buttons[k - 1]) else s
  }

  /** The augmented matrix of the membership reading: row `i` is light `i`,
      column `j < n` is 1 when button `j` lists `i`, column `n` is `target[i]`. */
  function Augmented(target: seq<bool>, buttons: seq<Button>): seq<seq<bool>>
  {
    seq(|target|, i requires 0 <= i < |target| =>
      seq(|buttons| + 1, j requires 0 <= j <= |buttons| =>
        if j < |buttons| then i in buttons[j] else target[i]))
  }

  /** Press pattern `x` reaches `target` under reading `e`. */
  predicate Accepts(e: Effect, target: seq<bool>, buttons: seq<Button>, x: seq<bool>)
  {
    && |x| == |buttons|
    && match e
       case Toggle => PressAll(|target|, buttons, x, |buttons|) == target
       case Membership => Solves(Augmented(target, buttons), |buttons|, x)
  }

  /** The least weight over the bit patterns of the counters `0 .. c-1` that
      `accepts` admits: the source's loop over `combination`, with
      `min_presses` starting at infinity. */
  function Search(n: nat, accepts: seq<bool> -> bool, c: nat): (r: Best)
    ensures r.NoneYet? <==> forall v :: 0 <= v < c ==> !accepts(Bits(v, n))
    ensures r.Found? ==> exists v :: 0 <= v < c && accepts(Bits(v, n)) && Weight(Bits(v, n)) == r.weight
    ensures r.Found? ==> forall v :: 0 <= v < c && accepts(Bits(v, n)) ==> r.weight <= Weight(Bits(v, n))
  {
    if c == 0 then NoneYet
    else
      var prev := Search(n, accepts, c - 1);
      var x := Bits(c - 1, n);
      if !accepts(x) then
        assert prev.NoneYet? ==> forall v :: 0 <= v < c ==> !accepts(Bits(v, n));
        assert prev.Found? ==> exists v :: 0 <= v < c && accepts(Bits(v, n));
        prev
      else
        assert accepts(Bits(c - 1, n)) && Weight(Bits(c - 1, n)) == Weight(x);
        if prev.NoneYet? || Weight(x) < prev.weight then Found(Weight(x)) else prev
  }

  /** One more counter value: the search keeps its best unless the new
      pattern is accepted and lighter. */
  lemma SearchStep(n: nat, accepts: seq<bool> -> bool, c: nat)
    ensures var prev, x := Search(n, accepts, c), Bits(c, n);
      Search(n, accepts, c + 1) ==
        if accepts(x) && (prev.NoneYet? || Weight(x) < prev.weight) then Found(Weight(x)) else prev
  {
  }

  /** `Accepts` for one machine, as a value a search can be given. */
  function Acceptor(e: Effect, target: seq<bool>, buttons: seq<Button>): seq<bool> -> bool
  {
    x => Accepts(e, target, buttons, x)
  }

  /** The exhaustive solver over all `2^n` press patterns, with the source's
      special case for a machine without buttons. */
  function Exhaustive(e: Effect, target: seq<bool>, buttons: seq<Button>): Answer
  {
    if |buttons| == 0 then (if true in target then Infinity else Presses(0))
    else match Search(|buttons|, Acceptor(e, target, buttons), Pow2(|buttons|))
      case NoneYet => Impossible
      case Found(w) => Presses(w)
  }

  /** `w` is the least weight of a press pattern that reaches the target. */
  ghost predicate IsLeast(e: Effect, target: seq<bool>, buttons: seq<Button>, w: nat)
  {
    && (exists x :: Accepts(e, target, buttons, x) && Weight(x) == w)
    && (forall x :: Accepts(e, target, buttons, x) ==> w <= Weight(x))
  }

  /** The exhaustive solver returns the least number of presses over all of
      `{0,1}^n`, `Impossible` exactly when no pattern works, and `Infinity`
      only for a button-less machine whose target has a light on. */
  lemma ExhaustiveIsLeast(e: Effect, target: seq<bool>, buttons: seq<Button>)
    ensures var r := Exhaustive(e, target, buttons);
      && (r.Infinity? <==> |buttons| == 0 && true in target)
      && (r.Impossible? <==> |buttons| > 0 && forall x :: !Accepts(e, target, buttons, x))
      && (r.Presses? ==> IsLeast(e, target, buttons, r.count))
  {
    var n := |buttons|;
    var r := Exhaustive(e, target, buttons);
    if n == 0 {
      if r.Presses? {
        assert Accepts(e, target, buttons, []) by {
          assert forall i :: 0 <= i < |target| ==> !target[i];
          assert PressAll(|target|, buttons, [], 0) == target;
        }
      }
    } else {
      var s := Search(n, Acceptor(e, target, buttons), Pow2(n));
      forall x | Accepts(e, target, buttons, x)
        ensures s.Found? && s.weight <= Weight(x)
      {
        BitsRoundTrip(x);
        assert Bits(FromBits(x), n) == x;
      }
    }
  }

  /** A weight that is reachable and least is what the exhaustive solver
      returns.  Without buttons only the empty pattern exists, so the target
      must be all off and the weight 0. */
  lemma ExhaustiveFromLeast(e: Effect, target: seq<bool>, buttons: seq<Button>, w: nat)
    requires IsLeast(e, target, buttons, w)
    ensures Exhaustive(e, target, buttons) == Presses(w)
  {
    ExhaustiveIsLeast(e, target, buttons);
    if |buttons| == 0 {
      var x :| Accepts(e, target, buttons, x) && Weight(x) == w;
      assert x == [];
      forall i | 0 <= i < |target|
        ensures !target[i]
      {
        match e
        case Toggle =>
          assert PressAll(|target|, buttons, x, 0)[i] == target[i];
        case Membership =>
          assert RowHolds(Augmented(target, buttons)[i], 0, x);
      }
    }
  }

  /** A machine with at least one button and no press pattern reaching the
      target is `Impossible`.  Without buttons the answer would be `Infinity`
      instead. */
  lemma ExhaustiveFromUnsolvable(e: Effect, target: seq<bool>, buttons: seq<Button>)
    requires |buttons| > 0 && forall x :: !Accepts(e, target, buttons, x)
    ensures Exhaustive(e, target, buttons) == Impossible
  {
    ExhaustiveIsLeast(e, target, buttons);
  }

  lemma {:induction false} CountNoRepeats(b: Button, i: nat)
    requires NoRepeats(b)
    ensures Count(b, i) == (if i in b then 1 else 0)
  {
    if |b| > 0 {
      var init := b[..|b| - 1];
      assert NoRepeats(init);
      CountNoRepeats(init, i);
      assert b == init + [b[|b| - 1]];
      if b[|b| - 1] == i {
        assert i !in init;
      }
    }
  }

  /** Without repeated indices in any button, pressing a pattern and
      multiplying the membership matrix by it agree: both readings accept the
      same press patterns. */
  lemma ReadingsAgree(target: seq<bool>, buttons: seq<Button>, x: seq<bool>)
    requires NoDuplicates(buttons) && |x| == |buttons|
    ensures Accepts(Toggle, target, buttons, x) <==> Accepts(Membership, target, buttons, x)
  {
    var n := |buttons|;
    var m := Augmented(target, buttons);
    var s := PressAll(|target|, buttons, x, n);
    forall i | 0 <= i < |target|
      ensures s[i] == DotRange(m[i], x, 0, n)
    {
      forall j | 0 <= j < n
        ensures (ParityRow(buttons, i)[j] && x[j]) == (m[i][j] && x[j])
      {
        CountNoRepeats(buttons[j], i);
      }
      DotCongruent(ParityRow(buttons, i), x, m[i], x, 0, n);
    }
    if Accepts(Membership, target, buttons, x) {
      assert forall i :: 0 <= i < |target| ==> RowHolds(m[i], n, x);
      assert s == target;
    }
  }

  /** Without repeated indices the two solvers' exhaustive searches agree. */
  lemma ExhaustiveReadingsAgree(target: seq<bool>, buttons: seq<Button>)
    requires NoDuplicates(buttons)
    ensures Exhaustive(Toggle, target, buttons) == Exhaustive(Membership, target, buttons)
  {
    forall x | |x| == |buttons|
      ensures Accepts(Toggle, target, buttons, x) <==> Accepts(Membership, target, buttons, x)
    {
      ReadingsAgree(target, buttons, x);
    }
    ExhaustiveIsLeast(Toggle, target, buttons);
    ExhaustiveIsLeast(Membership, target, buttons);
    var r1 := Exhaustive(Toggle, target, buttons);
    var r2 := Exhaustive(Membership, target, buttons);
    if r1.Presses? && r2.Presses? {
      var x1 :| |x1| == |buttons| && Accepts(Toggle, target, buttons, x1) && Weight(x1) == r1.count;
      var x2 :| |x2| == |buttons| && Accepts(Membership, target, buttons, x2) && Weight(x2) == r2.count;
      assert r2.count <= Weight(x1) && r1.count <= Weight(x2);
    }
  }

  /** A button listing the same light twice: the toggle reading flips the
      light back off, so the brute-force solver reports `-1`, while the
      membership reading treats the button as lighting it, so the Gaussian
      solver finds one press. */
  lemma RepeatedIndexDivergence()
    ensures Exhaustive(Toggle, [true], [[0, 0]]) == Impossible
    ensures Exhaustive(Membership, [true], [[0, 0]]) == Presses(1)
  {
    DoubleListingNeverLights();
    ExhaustiveFromUnsolvable(Toggle, [true], [[0, 0]]);
    DoubleListingMembership();
    ExhaustiveFromLeast(Membership, [true], [[0, 0]], 1);
  }

  /** For the machine with target `[1]` and the single button `[0, 0]`, no
      press pattern lights light 0 by toggling. */
  lemma DoubleListingNeverLights()
    ensures forall x :: !Accepts(Toggle, [true], [[0, 0]], x)
  {
    var bs: seq<Button> := [[0, 0]];
    assert Count(bs[0], 0) == 2 by {
      assert bs[0][..1] == [0];
      assert bs[0][..1][..0] == [];
    }
    forall x | |x| == 1
      ensures !PressAll(1, bs, x, 1)[0]
    {
      assert PressAll(1, bs, x, 1)[0] == DotRange(ParityRow(bs, 0), x, 0, 1);
    }
  }

  lemma DoubleListingMembership()
    ensures IsLeast(Membership, [true], [[0, 0]], 1)
  {
    var t: seq<bool>, bs: seq<Button> := [true], [[0, 0]];
    var m := Augmented(t, bs);
    assert m[0] == [true, true];
    assert RowHolds(m[0], 1, [true]);
    assert Weight([true]) == 1;
    assert Accepts(Membership, t, bs, [true]);
    forall x | |x| == 1 && Accepts(Membership, t, bs, x)
      ensures 1 <= Weight(x)
    {
      assert RowHolds(m[0], 1, x);
      assert x[0];
      assert x == [true];
    }
  }
}
