/**
  `part1`: the total of the least press counts over all machines, using
  either solver.  The first machine without a solution ends the run with
  `-1`; an infinite answer makes the running total infinite.
 */
module Factory {
  import opened GF2
  import opened Lights
  import opened Gaussian
  import opened BruteForce

  /** One parsed machine: its target pattern and its buttons. */
  datatype Machine = Machine(target: seq<bool>, buttons: seq<Button>)

  /** The value `part1` returns: a finite total, the `-1` of a failed run,
      or the infinite total of a run that added `float('inf')`. */
  datatype Total = Sum(value: nat) | Failed | InfiniteSum

  /** One step of the running total. */
  function Add(t: Total, a: Answer): Total
  {
    match a
    case Impossible => Failed
    case Infinity => if t.Failed? then Failed else InfiniteSum
    case Presses(k) => match t
      case Sum(v) => Sum(v + k)
      case _ => t
  }

  /** The running total over the answers, first to last. */
  function Tally(answers: seq<Answer>): Total
  {
    if |answers| == 0 then Sum(0) else Add(Tally(answers[..|answers| - 1]), answers[|answers| - 1])
  }

  /** The sum of the answers' press counts, counting any other answer as 0. */
  function CountSum(answers: seq<Answer>): nat
  {
    if |answers| == 0 then 0
    else CountSum(answers[..|answers| - 1]) + (match answers[|answers| - 1] case Presses(k) => k case _ => 0)
  }

  /** The total fails exactly when some machine has no solution, is infinite
      exactly when none fails and some machine is infinite, and is otherwise
      the sum of the press counts. */
  lemma {:induction false} TallyMeaning(answers: seq<Answer>)
    ensures Tally(answers).Failed? <==> exists i :: 0 <= i < |answers| && answers[i].Impossible?
    ensures Tally(answers).InfiniteSum? <==>
      (forall i :: 0 <= i < |answers| ==> !answers[i].Impossible?) &&
      (exists i :: 0 <= i < |answers| && answers[i].Infinity?)
    ensures Tally(answers).Sum? ==> Tally(answers).value == CountSum(answers)
  {
    if |answers| > 0 {
      var init := answers[..|answers| - 1];
      TallyMeaning(init);
      assert forall i :: 0 <= i < |init| ==> init[i] == answers[i];
    }
  }

  /** What a machine's solver returns: `solve_gf2_gaussian` with `useGaussian`,
      `solve_gf2_system` otherwise. */
  function Answered(m: Machine, useGaussian: bool): Answer
  {
    Exhaustive(if useGaussian then Membership else Toggle, m.target, m.buttons)
  }

  /** The answers of all machines under one solver. */
  function AnswerAll(machines: seq<Machine>, useGaussian: bool): (answers: seq<Answer>)
    ensures |answers| == |machines|
    ensures forall i :: 0 <= i < |machines| ==> answers[i] == Answered(machines[i], useGaussian)
  {
    seq(|machines|, i requires 0 <= i < |machines| => Answered(machines[i], useGaussian))
  }

  /** The first failure stops the tally for good. */
  lemma {:induction false} FailedStays(answers: seq<Answer>, rest: seq<Answer>)
    requires Tally(answers).Failed?
    ensures Tally(answers + rest).Failed?
    decreases |rest|
  {
    if |rest| > 0 {
      var init := rest[..|rest| - 1];
      FailedStays(answers, init);
      assert (answers + rest)[..|answers + rest| - 1] == answers + init;
    } else {
      assert answers + rest == answers;
    }
  }

  /** One more answer is one more step of the running total. */
  lemma TallyPrefix(answers: seq<Answer>, i: nat)
    requires i < |answers|
    ensures Tally(answers[..i + 1]) == Add(Tally(answers[..i]), answers[i])
  {
    assert answers[..i + 1][..i] == answers[..i];
  }

  /** A machine without a solution fails the whole run. */
  lemma ImpossibleFails(answers: seq<Answer>, i: nat)
    requires i < |answers| && answers[i].Impossible?
    ensures Tally(answers).Failed?
  {
    TallyMeaning(answers);
  }

  /** Part 1: solve each machine in order and add up the press counts,
      returning `-1` at the first machine without a solution. */
  method PartOne(machines: seq<Machine>, useGaussian: bool) returns (total: Total)
    ensures total == Tally(AnswerAll(machines, useGaussian))
  {
    ghost var answers := AnswerAll(machines, useGaussian);
    total := Sum(0);
    for i := 0 to |machines|
      invariant total == Tally(answers[..i])
      invariant !total.Failed?
    {
      var m := machines[i];
      var a: Answer;
      if useGaussian {
        a := SolveGaussian(m.target, m.buttons);
      } else {
        a := SolveBruteForce(m.target, m.buttons);
      }
      assert a == answers[i];
      if a.Impossible? {
        ImpossibleFails(answers, i);
        return Failed;
      }
      TallyPrefix(answers, i);
      total := Add(total, a);
    }
    assert answers[..|machines|] == answers;
  }

  /** When no button lists a light twice, both solvers give the same total. */
  lemma SolversAgree(machines: seq<Machine>)
    requires forall i :: 0 <= i < |machines| ==> NoDuplicates(machines[i].buttons)
    ensures Tally(AnswerAll(machines, true)) == Tally(AnswerAll(machines, false))
  {
    forall i | 0 <= i < |machines|
      ensures Answered(machines[i], true) == Answered(machines[i], false)
    {
      ExhaustiveReadingsAgree(machines[i].target, machines[i].buttons);
    }
    assert AnswerAll(machines, true) == AnswerAll(machines, false);
  }
}
