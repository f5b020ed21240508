/**
  `solve_gf2_gaussian`: build the augmented matrix, reduce it, check
  consistency, and find the least-weight solution by enumerating every
  assignment of the free variables.
 */
module Gaussian {
  import opened GF2
  import opened Lights
  import opened Elimination

  /** The augmented matrix built cell by cell: cell `(i, j)` is set to 1 for
      every light `i < L` that button `j` lists (larger indices are skipped),
      then the target is copied into column `n`. */
  method BuildAugmented(target: seq<bool>, buttons: seq<Button>) returns (m: Matrix)
    ensures |m| == |target| && Shaped(m, |buttons|)
    ensures forall i, j :: 0 <= i < |target| && 0 <= j < |buttons| ==> m[i][j] == (i in buttons[j])
    ensures forall i :: 0 <= i < |target| ==> m[i][|buttons|] == target[i]
    ensures m == Augmented(target, buttons)
  {
    var lights, n := |target|, |buttons|;
    m := seq(lights, _ => Zeros(n + 1));
    for j := 0 to n
      invariant |m| == lights && Shaped(m, n)
      invariant forall i, c :: 0 <= i < lights && 0 <= c <= n ==> m[i][c] == (c < j && i in buttons[c])
    {
      var b := buttons[j];
      for k := 0 to |b|
        invariant |m| == lights && Shaped(m, n)
        invariant forall i, c :: 0 <= i < lights && 0 <= c <= n ==>
          m[i][c] == ((c < j && i in buttons[c]) || (c == j && i in b[..k]))
      {
        assert b[..k + 1] == b[..k] + [b[k]];
        var l := b[k];
        if l < lights {
          m := m[l := m[l][j := true]];
        }
      }
      assert b[..|b|] == b;
    }
    for i := 0 to lights
      invariant |m| == lights && Shaped(m, n)
      invariant forall r, c :: 0 <= r < lights && 0 <= c < n ==> m[r][c] == (r in buttons[c])
      invariant forall r :: 0 <= r < lights ==> m[r][n] == (r < i && target[r])
    {
      m := m[i := m[i][n := target[i]]];
    }
    ghost var spec := Augmented(target, buttons);
    assert forall r :: 0 <= r < lights ==> m[r] == spec[r];
  }

  /** The starting vector for one counter value: zeros, with free variable
      `free[i]` set to bit `i`. */
  function FreeAssignment(n: nat, free: seq<nat>, bits: seq<bool>): (x: seq<bool>)
    requires |bits| == |free| && Increasing(free)
    requires forall i :: 0 <= i < |free| ==> free[i] < n
    ensures |x| == n
    ensures forall i :: 0 <= i < |free| ==> x[free[i]] == bits[i]
    ensures forall c :: 0 <= c < n && c !in free ==> !x[c]
  {
    if |free| == 0 then Zeros(n)
    else
      var last := |free| - 1;
      FreeAssignment(n, free[..last], bits[..last])[free[last] := bits[last]]
  }

  /** The free bits of `x`, read as a counter (`free_combo`). */
  function FreeIndex(x: seq<bool>, free: seq<nat>): nat
    requires forall i :: 0 <= i < |free| ==> free[i] < |x|
  {
    FromBits(seq(|free|, i requires 0 <= i < |free| => x[free[i]]))
  }

  /** Any solution of the reduced system is the back-substitution of the
      counter value of its own free bits. */
  lemma CounterCovers(m: Matrix, n: nat, pivots: seq<nat>, free: seq<nat>, y: seq<bool>, x: seq<bool>)
    requires Reduced(m, n, pivots, n) && Solves(m, n, y) && free == FreeColumns(n, pivots)
    requires |x| == n && PivotEquations(m, n, pivots, x)
    requires forall i :: 0 <= i < |free| ==> x[free[i]] == Bits(FreeIndex(y, free), |free|)[i]
    ensures x == y
  {
    var v := seq(|free|, i requires 0 <= i < |free| => y[free[i]]);
    BitsRoundTrip(v);
    assert Bits(FreeIndex(y, free), |free|) == v;
    SolutionsMeetPivotEquations(m, n, pivots, y);
    forall c | 0 <= c < n && c !in pivots
      ensures x[c] == y[c]
    {
      assert c in free;
      var i :| 0 <= i < |free| && free[i] == c;
      assert x[c] == v[i];
    }
    PivotEquationsDetermine(m, n, pivots, x, y);
  }

  /** The enumeration over `2^|free|` counter values: each one is
      back-substituted into a solution, and the least weight is kept. */
  method LeastFreeAssignment(m: Matrix, n: nat, pivots: seq<nat>, free: seq<nat>) returns (w: nat)
    requires Reduced(m, n, pivots, n) && Consistent(m, n, |pivots|)
    requires free == FreeColumns(n, pivots) && |free| > 0
    ensures exists x :: Solves(m, n, x) && Weight(x) == w
    ensures forall x :: Solves(m, n, x) ==> w <= Weight(x)
  {
    var best: Best := NoneYet;
    var combo := 0;
    while combo < Pow2(|free|)
      invariant combo <= Pow2(|free|)
      invariant best.NoneYet? <==> combo == 0
      invariant best.Found? ==> exists x :: Solves(m, n, x) && Weight(x) == best.weight
      invariant forall y :: Solves(m, n, y) && FreeIndex(y, free) < combo ==> best.Found? && best.weight <= Weight(y)
    {
      var bits := Bits(combo, |free|);
      var x := BackSubstitute(m, n, pivots, FreeAssignment(n, free, bits));
      PivotEquationsSolve(m, n, pivots, x);
      forall y | Solves(m, n, y) && FreeIndex(y, free) == combo
        ensures y == x
      {
        CounterCovers(m, n, pivots, free, y, x);
      }
      var weight := Weight(x);
      if best.NoneYet? || weight < best.weight {
        best := Found(weight);
      }
      combo := combo + 1;
    }
    forall y | Solves(m, n, y)
      ensures FreeIndex(y, free) < Pow2(|free|)
    {
      BitsRoundTrip(seq(|free|, i requires 0 <= i < |free| => y[free[i]]));
    }
    w := best.weight;
  }

  /** Minimum presses by Gaussian elimination.  It returns exactly what an
      exhaustive search of the membership matrix returns, so it is sound and
      minimal; on buttons without repeated indices it also agrees with the
      brute-force solver. */
  method SolveGaussian(target: seq<bool>, buttons: seq<Button>) returns (r: Answer)
    ensures r == Exhaustive(Membership, target, buttons)
    ensures NoDuplicates(buttons) ==> r == Exhaustive(Toggle, target, buttons)
  {
    if NoDuplicates(buttons) {
      ExhaustiveReadingsAgree(target, buttons);
    }
    var n := |buttons|;
    if n == 0 {
      return if true in target then Infinity else Presses(0);
    }
    var m0 := BuildAugmented(target, buttons);
    var m, pivotRow, pivots := Eliminate(m0, n);
    var ok := CheckConsistent(m, n, pivotRow);
    if !ok {
      InconsistentHasNoSolution(m, n, pivots);
      ExhaustiveFromUnsolvable(Membership, target, buttons);
      return Impossible;
    }
    var cols := PivotColumns(m, n, pivotRow, pivots);
    var free := FreeColumns(n, cols);
    var w: nat;
    if |free| == 0 {
      var x := BackSubstitute(m, n, cols, Zeros(n));
      PivotEquationsSolve(m, n, cols, x);
      forall y | Solves(m, n, y)
        ensures y == x
      {
        SolutionsMeetPivotEquations(m, n, cols, y);
        PivotEquationsDetermine(m, n, cols, x, y);
      }
      w := Weight(x);
    } else {
      w := LeastFreeAssignment(m, n, cols, free);
    }
    ExhaustiveFromLeast(Membership, target, buttons, w);
    r := Presses(w);
  }
}
