/**
  The machines of the day 10 tests, solved by the model.
 */
module FactoryExamples {
  import opened GF2
  import opened Lights
  import opened Factory

  /** The positions of the set bits. */
  function SetBits(x: seq<bool>): set<nat>
  {
    set i: nat | i < |x| && x[i]
  }

  /** The weight of a vector is the number of its set bits. */
  lemma {:induction false} WeightIsCardinality(x: seq<bool>)
    ensures Weight(x) == |SetBits(x)|
  {
    if |x| > 0 {
      var init := x[..|x| - 1];
      WeightIsCardinality(init);
      if x[|x| - 1] {
        assert SetBits(x) == SetBits(init) + {|x| - 1};
      } else {
        assert SetBits(x) == SetBits(init);
      }
    }
  }

  /** Weight counted one prefix at a time. */
  lemma WeightStep(x: seq<bool>, k: nat)
    requires k < |x|
    ensures Weight(x[..k + 1]) == Weight(x[..k]) + (if x[k] then 1 else 0)
  {
    assert x[..k + 1][..k] == x[..k];
  }

  /** Two set bits give at least two presses. */
  lemma WeightTwo(x: seq<bool>, i: nat, j: nat)
    requires i < j < |x| && x[i] && x[j]
    ensures Weight(x) >= 2
  {
    WeightIsCardinality(x);
    var b := SetBits(x);
    assert b == {i, j} + (b - {i, j});
  }

  /** Three set bits give at least three presses. */
  lemma WeightThree(x: seq<bool>, i: nat, j: nat, k: nat)
    requires i < j < k < |x| && x[i] && x[j] && x[k]
    ensures Weight(x) >= 3
  {
    WeightIsCardinality(x);
    var b := SetBits(x);
    assert b == {i, j, k} + (b - {i, j, k});
  }

  /** A least solution of the membership system is the brute-force answer
      when no button lists a light twice. */
  lemma LeastByMembership(t: seq<bool>, bs: seq<Button>, x: seq<bool>, w: nat)
    requires NoDuplicates(bs) && |bs| > 0
    requires Accepts(Membership, t, bs, x) && Weight(x) == w
    requires forall y :: Accepts(Membership, t, bs, y) ==> w <= Weight(y)
    ensures Exhaustive(Toggle, t, bs) == Presses(w)
  {
    ExhaustiveReadingsAgree(t, bs);
    ExhaustiveFromLeast(Membership, t, bs, w);
  }

  function FirstMachine(): Machine
  {
    Machine([false, true, true, false], [[3], [1, 3], [2], [2, 3], [0, 2], [0, 1]])
  }

  /** The membership matrix of the first machine. */
  lemma FirstRows()
    ensures Augmented(FirstMachine().target, FirstMachine().buttons) == [
      [false, false, false, false, true, true, false],
      [false, true, false, false, false, true, true],
      [false, false, true, true, true, false, true],
      [true, true, false, true, false, false, false]]
  {
    var m := Augmented(FirstMachine().target, FirstMachine().buttons);
    assert m[0] == [false, false, false, false, true, true, false];
    assert m[1] == [false, true, false, false, false, true, true];
    assert m[2] == [false, false, true, true, true, false, true];
    assert m[3] == [true, true, false, true, false, false, false];
  }

  /** Every solution of the first machine presses at least two buttons. */
  lemma FirstLowerBound(y: seq<bool>)
    requires Accepts(Membership, FirstMachine().target, FirstMachine().buttons, y)
    ensures 2 <= Weight(y)
  {
    FirstRows();
    var m := Augmented(FirstMachine().target, FirstMachine().buttons);
    assert RowHolds(m[0], 6, y) && RowHolds(m[1], 6, y) && RowHolds(m[3], 6, y);
    if y[5] {
      WeightTwo(y, 4, 5);
    } else if y[0] {
      WeightTwo(y, 0, 1);
    } else {
      WeightTwo(y, 1, 3);
    }
  }

  /** Pressing buttons 1 and 3 solves the first machine. */
  lemma FirstSolution()
    ensures Accepts(Membership, FirstMachine().target, FirstMachine().buttons, [false, true, false, true, false, false])
    ensures Weight([false, true, false, true, false, false]) == 2
  {
    var x := [false, true, false, true, false, false];
    FirstRows();
    var m := Augmented(FirstMachine().target, FirstMachine().buttons);
    assert RowHolds(m[0], 6, x) && RowHolds(m[1], 6, x);
    assert RowHolds(m[2], 6, x) && RowHolds(m[3], 6, x);
    FirstWeight();
  }

  lemma FirstWeight()
    ensures Weight([false, true, false, true, false, false]) == 2
  {
    var x := [false, true, false, true, false, false];
    WeightStep(x, 0); WeightStep(x, 1); WeightStep(x, 2);
    WeightStep(x, 3); WeightStep(x, 4); WeightStep(x, 5);
    assert x[..0] == [] && x[..6] == x;
  }

  /** `[.##.] (3) (1,3) (2) (2,3) (0,2) (0,1)`: two presses. */
  lemma FirstMachineTwo()
    ensures Exhaustive(Toggle, FirstMachine().target, FirstMachine().buttons) == Presses(2)
  {
    var t, bs := FirstMachine().target, FirstMachine().buttons;
    FirstSolution();
    forall y | Accepts(Membership, t, bs, y)
      ensures 2 <= Weight(y)
    {
      FirstLowerBound(y);
    }
    LeastByMembership(t, bs, [false, true, false, true, false, false], 2);
  }

  function SecondMachine(): Machine
  {
    Machine([false, false, false, true, false], [[0, 2, 3, 4], [2, 3], [0, 4], [0, 1, 2], [1, 2, 3, 4]])
  }

  /** The membership matrix of the second machine. */
  lemma SecondRows()
    ensures Augmented(SecondMachine().target, SecondMachine().buttons) == [
      [true, false, true, true, false, false],
      [false, false, false, true, true, false],
      [true, true, false, true, true, false],
      [true, true, false, false, true, true],
      [true, false, true, false, true, false]]
  {
    var m := Augmented(SecondMachine().target, SecondMachine().buttons);
    assert m[0] == [true, false, true, true, false, false];
    assert m[1] == [false, false, false, true, true, false];
    assert m[2] == [true, true, false, true, true, false];
    assert m[3] == [true, true, false, false, true, true];
    assert m[4] == [true, false, true, false, true, false];
  }

  /** Every solution of the second machine presses at least three buttons:
      buttons 3 and 4 always, and one of buttons 0 and 2. */
  lemma SecondLowerBound(y: seq<bool>)
    requires Accepts(Membership, SecondMachine().target, SecondMachine().buttons, y)
    ensures 3 <= Weight(y)
  {
    SecondRows();
    var m := Augmented(SecondMachine().target, SecondMachine().buttons);
    assert RowHolds(m[0], 5, y) && RowHolds(m[1], 5, y) && RowHolds(m[2], 5, y) && RowHolds(m[3], 5, y);
    assert y[3] && y[4];
    if y[0] {
      WeightThree(y, 0, 3, 4);
    } else {
      WeightThree(y, 2, 3, 4);
    }
  }

  /** Pressing buttons 2, 3 and 4 solves the second machine. */
  lemma SecondSolution()
    ensures Accepts(Membership, SecondMachine().target, SecondMachine().buttons, [false, false, true, true, true])
    ensures Weight([false, false, true, true, true]) == 3
  {
    var x := [false, false, true, true, true];
    SecondRows();
    var m := Augmented(SecondMachine().target, SecondMachine().buttons);
    assert RowHolds(m[0], 5, x) && RowHolds(m[1], 5, x) && RowHolds(m[2], 5, x);
    assert RowHolds(m[3], 5, x) && RowHolds(m[4], 5, x);
    SecondWeight();
  }

  lemma SecondWeight()
    ensures Weight([false, false, true, true, true]) == 3
  {
    var x := [false, false, true, true, true];
    WeightStep(x, 0); WeightStep(x, 1); WeightStep(x, 2);
    WeightStep(x, 3); WeightStep(x, 4);
    assert x[..0] == [] && x[..5] == x;
  }

  /** `[...#.] (0,2,3,4) (2,3) (0,4) (0,1,2) (1,2,3,4)`: three presses. */
  lemma SecondMachineThree()
    ensures Exhaustive(Toggle, SecondMachine().target, SecondMachine().buttons) == Presses(3)
  {
    var t, bs := SecondMachine().target, SecondMachine().buttons;
    SecondSolution();
    forall y | Accepts(Membership, t, bs, y)
      ensures 3 <= Weight(y)
    {
      SecondLowerBound(y);
    }
    LeastByMembership(t, bs, [false, false, true, true, true], 3);
  }

  function ThirdMachine(): Machine
  {
    Machine([false, true, true, true, false, true], [[0, 1, 2, 3, 4], [0, 3, 4], [0, 1, 2, 4, 5], [1, 2]])
  }

  /** The membership matrix of the third machine. */
  lemma ThirdRows()
    ensures Augmented(ThirdMachine().target, ThirdMachine().buttons) == [
      [true, true, true, false, false],
      [true, false, true, true, true],
      [true, false, true, true, true],
      [true, true, false, false, true],
      [true, true, true, false, false],
      [false, false, true, false, true]]
  {
    var m := Augmented(ThirdMachine().target, ThirdMachine().buttons);
    assert m[0] == [true, true, true, false, false];
    assert m[1] == [true, false, true, true, true];
    assert m[2] == [true, false, true, true, true];
    assert m[3] == [true, true, false, false, true];
    assert m[4] == [true, true, true, false, false];
    assert m[5] == [false, false, true, false, true];
  }

  /** Every solution of the third machine presses button 2 and one of
      buttons 0 and 1. */
  lemma ThirdLowerBound(y: seq<bool>)
    requires Accepts(Membership, ThirdMachine().target, ThirdMachine().buttons, y)
    ensures 2 <= Weight(y)
  {
    ThirdRows();
    var m := Augmented(ThirdMachine().target, ThirdMachine().buttons);
    assert RowHolds(m[3], 4, y) && RowHolds(m[5], 4, y);
    if y[0] {
      WeightTwo(y, 0, 2);
    } else {
      WeightTwo(y, 1, 2);
    }
  }

  /** Pressing buttons 1 and 2 solves the third machine. */
  lemma ThirdSolution()
    ensures Accepts(Membership, ThirdMachine().target, ThirdMachine().buttons, [false, true, true, false])
    ensures Weight([false, true, true, false]) == 2
  {
    var x := [false, true, true, false];
    ThirdRows();
    var m := Augmented(ThirdMachine().target, ThirdMachine().buttons);
    assert RowHolds(m[0], 4, x) && RowHolds(m[1], 4, x) && RowHolds(m[2], 4, x);
    assert RowHolds(m[3], 4, x) && RowHolds(m[4], 4, x) && RowHolds(m[5], 4, x);
    ThirdWeight();
  }

  lemma ThirdWeight()
    ensures Weight([false, true, true, false]) == 2
  {
    var x := [false, true, true, false];
    WeightStep(x, 0); WeightStep(x, 1); WeightStep(x, 2); WeightStep(x, 3);
    assert x[..0] == [] && x[..4] == x;
  }

  /** `[.###.#] (0,1,2,3,4) (0,3,4) (0,1,2,4,5) (1,2)`: two presses. */
  lemma ThirdMachineTwo()
    ensures Exhaustive(Toggle, ThirdMachine().target, ThirdMachine().buttons) == Presses(2)
  {
    var t, bs := ThirdMachine().target, ThirdMachine().buttons;
    ThirdSolution();
    forall y | Accepts(Membership, t, bs, y)
      ensures 2 <= Weight(y)
    {
      ThirdLowerBound(y);
    }
    LeastByMembership(t, bs, [false, true, true, false], 2);
  }

  const Examples := [FirstMachine(), SecondMachine(), ThirdMachine()]

  /** The brute-force answers for the three example machines. */
  lemma ExampleAnswers()
    ensures AnswerAll(Examples, false) == [Presses(2), Presses(3), Presses(2)]
  {
    FirstMachineTwo();
    SecondMachineThree();
    ThirdMachineTwo();
  }

  lemma ExampleTally()
    ensures Tally([Presses(2), Presses(3), Presses(2)]) == Sum(7)
  {
    var answers := [Presses(2), Presses(3), Presses(2)];
    assert answers[..2] == [Presses(2), Presses(3)] && answers[..2][..1] == [Presses(2)];
    assert [Presses(2)][..0] == [];
  }

  lemma ExampleNoDuplicates()
    ensures forall i :: 0 <= i < |Examples| ==> NoDuplicates(Examples[i].buttons)
  {
    assert NoDuplicates(FirstMachine().buttons);
    assert NoDuplicates(SecondMachine().buttons);
    assert NoDuplicates(ThirdMachine().buttons);
  }

  /** The three machines of the example input: `part1` totals seven with
      the brute-force solver... */
  lemma ExampleTotal()
    ensures Tally(AnswerAll(Examples, false)) == Sum(7)
  {
    ExampleAnswers();
    ExampleTally();
  }

  /** ...and with Gaussian elimination. */
  lemma ExampleTotalGaussian()
    ensures Tally(AnswerAll(Examples, true)) == Sum(7)
  {
    ExampleTotal();
    ExampleNoDuplicates();
    SolversAgree(Examples);
  }

  /** `[1, 0]` with one button on light 1: no press pattern lights light 0. */
  lemma UnreachableLight()
    ensures Exhaustive(Toggle, [true, false], [[1]]) == Impossible
  {
    var t: seq<bool>, bs: seq<Button> := [true, false], [[1]];
    var m := Augmented(t, bs);
    assert m[0] == [false, true];
    forall y | |y| == 1
      ensures !RowHolds(m[0], 1, y)
    {
    }
    ExhaustiveFromUnsolvable(Membership, t, bs);
    ExhaustiveReadingsAgree(t, bs);
  }

  /** A target of all lights off needs no presses. */
  lemma AlreadyOff()
    ensures Exhaustive(Toggle, [false, false, false], [[0], [1], [2]]) == Presses(0)
  {
    var t: seq<bool>, bs: seq<Button> := [false, false, false], [[0], [1], [2]];
    var x := [false, false, false];
    var m := Augmented(t, bs);
    assert m[0] == [true, false, false, false];
    assert m[1] == [false, true, false, false];
    assert m[2] == [false, false, true, false];
    assert RowHolds(m[0], 3, x) && RowHolds(m[1], 3, x) && RowHolds(m[2], 3, x);
    assert Weight(x) == 0 by {
      WeightStep(x, 0); WeightStep(x, 1); WeightStep(x, 2);
      assert x[..0] == [] && x[..3] == x;
    }
    LeastByMembership(t, bs, x, 0);
  }
}
