/**
  Gauss-Jordan elimination over GF(2) on an augmented matrix, the steps of
  `solve_gf2_gaussian` between building the matrix and enumerating the
  free variables: pivot search, row swap, elimination of the pivot column
  from every other row, the consistency check, the scan that recovers the
  pivot columns, the free columns, and back-substitution.
 */
module Elimination {
  import opened GF2

  type Matrix = seq<seq<bool>>

  /** Every row has `n` coefficients and one right-hand side. */
  ghost predicate Shaped(m: Matrix, n: nat)
  {
    forall r :: 0 <= r < |m| ==> |m[r]| == n + 1
  }

  /** Two systems with the same solutions. */
  ghost predicate Equivalent(m: Matrix, m': Matrix, n: nat)
  {
    forall x :: Solves(m, n, x) <==> Solves(m', n, x)
  }

  predicate Increasing(p: seq<nat>)
  {
    forall i, j :: 0 <= i < j < |p| ==> p[i] < p[j]
  }

  /** The state after the columns `0 .. col-1` have been processed with
      pivots recorded in `pivots` (row `k` is the pivot row of column
      `pivots[k]`):
      - pivot columns increase down the rows;
      - each pivot column holds a single 1, in its own pivot row;
      - a pivot row is 0 left of its pivot;
      - the rows below the last pivot row are 0 in every processed column. */
  ghost predicate Reduced(m: Matrix, n: nat, pivots: seq<nat>, col: nat)
  {
    && Shaped(m, n) && col <= n
    && |pivots| <= |m| && Increasing(pivots)
    && (forall k :: 0 <= k < |pivots| ==> pivots[k] < col && m[k][pivots[k]])
    && (forall k, r :: 0 <= k < |pivots| && 0 <= r < |m| && r != k ==> !m[r][pivots[k]])
    && (forall k, c :: 0 <= k < |pivots| && 0 <= c < pivots[k] ==> !m[k][c])
    && (forall r, c :: |pivots| <= r < |m| && 0 <= c < col ==> !m[r][c])
  }

  /** No row below the pivot rows claims `0 = 1`. */
  ghost predicate Consistent(m: Matrix, n: nat, pivotCount: nat)
    requires Shaped(m, n)
  {
    forall r :: pivotCount <= r < |m| ==> !m[r][n]
  }

  function SwapRows(m: Matrix, a: nat, b: nat): (m': Matrix)
    requires a < |m| && b < |m|
    ensures |m'| == |m| && m'[a] == m[b] && m'[b] == m[a]
    ensures forall r :: 0 <= r < |m| && r != a && r != b ==> m'[r] == m[r]
  {
    m[a := m[b]][b := m[a]]
  }

  lemma SwapPreservesSolutions(m: Matrix, n: nat, a: nat, b: nat)
    requires a < |m| && b < |m|
    ensures Equivalent(m, SwapRows(m, a, b), n)
  {
    var m' := SwapRows(m, a, b);
    forall x
      ensures Solves(m, n, x) <==> Solves(m', n, x)
    {
      if Solves(m, n, x) {
        forall r | 0 <= r < |m'|
          ensures |m'[r]| == n + 1 && RowHolds(m'[r], n, x)
        {
          if r == a { assert m'[r] == m[b]; }
          else if r == b { assert m'[r] == m[a]; }
          else { assert m'[r] == m[r]; }
        }
      }
      if Solves(m', n, x) {
        forall r | 0 <= r < |m|
          ensures |m[r]| == n + 1 && RowHolds(m[r], n, x)
        {
          if r == a { assert m[r] == m'[b]; }
          else if r == b { assert m[r] == m'[a]; }
          else { assert m[r] == m'[r]; }
        }
      }
    }
  }

  /** The lowest row at or below `from` with a 1 in column `col` (the
      search loop of `solve_gf2_gaussian`). */
  method FindPivotRow(m: Matrix, n: nat, col: nat, from: nat) returns (found: bool, row: nat)
    requires Shaped(m, n) && col < n
    ensures found ==> from <= row < |m| && m[row][col]
    ensures found ==> forall r :: from <= r < row ==> !m[r][col]
    ensures !found ==> forall r :: from <= r < |m| ==> !m[r][col]
  {
    row := from;
    while row < |m|
      invariant from <= row
      invariant forall r :: from <= r < row && r < |m| ==> !m[r][col]
    {
      if m[row][col] {
        return true, row;
      }
      row := row + 1;
    }
    found := false;
  }

  /** XOR the pivot row into every other row with a 1 in column `col`. */
  method EliminateColumn(m: Matrix, n: nat, pivotRow: nat, col: nat) returns (m': Matrix)
    requires Shaped(m, n) && pivotRow < |m| && col < n && m[pivotRow][col]
    ensures |m'| == |m| && Shaped(m', n) && m'[pivotRow] == m[pivotRow]
    ensures forall r :: 0 <= r < |m| && r != pivotRow ==> !m'[r][col]
    ensures forall r :: 0 <= r < |m| ==>
      m'[r] == if r != pivotRow && m[r][col] then XorRows(m[r], m[pivotRow]) else m[r]
    ensures Equivalent(m, m', n)
  {
    m' := m;
    var row := 0;
    while row < |m|
      invariant 0 <= row <= |m| && |m'| == |m|
      invariant forall r :: 0 <= r < row ==>
        m'[r] == if r != pivotRow && m[r][col] then XorRows(m[r], m[pivotRow]) else m[r]
      invariant forall r :: row <= r < |m| ==> m'[r] == m[r]
    {
      if row != pivotRow && m'[row][col] {
        m' := m'[row := XorRows(m'[row], m'[pivotRow])];
      }
      row := row + 1;
    }
    EliminationPreservesSolutions(m, m', n, pivotRow, col);
  }

  lemma EliminationPreservesSolutions(m: Matrix, m': Matrix, n: nat, p: nat, col: nat)
    requires Shaped(m, n) && p < |m| && col < n && |m'| == |m|
    requires forall r :: 0 <= r < |m| ==>
      m'[r] == if r != p && m[r][col] then XorRows(m[r], m[p]) else m[r]
    ensures Equivalent(m, m', n)
  {
    forall x
      ensures Solves(m, n, x) <==> Solves(m', n, x)
    {
      if |x| == n {
        forall r | 0 <= r < |m| && r != p && m[r][col]
          ensures RowHolds(m'[r], n, x) <==> (RowHolds(m[r], n, x) <==> RowHolds(m[p], n, x))
        {
          XorRowHolds(m[r], m[p], n, x);
        }
        assert m'[p] == m[p];
        if Solves(m, n, x) {
          assert forall r :: 0 <= r < |m'| ==> |m'[r]| == n + 1 && RowHolds(m'[r], n, x);
        }
        if Solves(m', n, x) {
          assert RowHolds(m[p], n, x);
          assert forall r :: 0 <= r < |m| ==> |m[r]| == n + 1 && RowHolds(m[r], n, x);
        }
      }
    }
  }

  /** Reduce the augmented matrix column by column (the elimination loop of
      `solve_gf2_gaussian`).  `pivotRow` is the number of pivots found; the
      ghost `pivots` records the column of each pivot row. */
  method Eliminate(m0: Matrix, n: nat) returns (m: Matrix, pivotRow: nat, ghost pivots: seq<nat>)
    requires Shaped(m0, n)
    ensures |m| == |m0| && Equivalent(m0, m, n)
    ensures Reduced(m, n, pivots, n) && pivotRow == |pivots|
  {
    m, pivotRow, pivots := m0, 0, [];
    var col := 0;
    while col < n
      invariant col <= n && |m| == |m0|
      invariant Reduced(m, n, pivots, col) && pivotRow == |pivots|
      invariant Equivalent(m0, m, n)
    {
      var found, row := FindPivotRow(m, n, col, pivotRow);
      if found {
        ghost var before := m;
        if row != pivotRow {
          SwapPreservesSolutions(m, n, pivotRow, row);
          m := SwapRows(m, pivotRow, row);
        }
        SwapKeepsReduced(before, m, n, pivots, col, row);
        ghost var swapped := m;
        m := EliminateColumn(m, n, pivotRow, col);
        PivotStep(swapped, m, n, pivots, col);
        pivots := pivots + [col];
        pivotRow := pivotRow + 1;
      }
      col := col + 1;
    }
  }

  /** Swapping the first non-pivot row with a lower row that has a 1 in
      column `col` keeps the processed columns reduced and brings the 1 up. */
  lemma SwapKeepsReduced(m: Matrix, m': Matrix, n: nat, pivots: seq<nat>, col: nat, row: nat)
    requires Reduced(m, n, pivots, col) && col < n
    requires |pivots| <= row < |m| && m[row][col]
    requires m' == (if row != |pivots| then SwapRows(m, |pivots|, row) else m)
    ensures Reduced(m', n, pivots, col) && |pivots| < |m'| && m'[|pivots|][col]
  {
  }

  /** Eliminating the new pivot column extends the reduced form by one column. */
  lemma PivotStep(m: Matrix, m': Matrix, n: nat, pivots: seq<nat>, col: nat)
    requires Reduced(m, n, pivots, col) && col < n
    requires |pivots| < |m| && m[|pivots|][col]
    requires |m'| == |m| && Shaped(m', n)
    requires forall r :: 0 <= r < |m| ==>
      m'[r] == if r != |pivots| && m[r][col] then XorRows(m[r], m[|pivots|]) else m[r]
    ensures Reduced(m', n, pivots + [col], col + 1)
  {
    var p := |pivots|;
    forall r, c | 0 <= r < |m| && 0 <= c < col
      ensures m'[r][c] == m[r][c]
    {
      assert !m[p][c];
    }
    var ps := pivots + [col];
    assert forall k :: 0 <= k < p ==> ps[k] == pivots[k];
    assert ps[p] == col;
  }

  /** Some row at or below the pivot rows reads `0 = 1`: nothing solves the system. */
  method CheckConsistent(m: Matrix, n: nat, pivotRow: nat) returns (ok: bool)
    requires Shaped(m, n)
    ensures ok <==> Consistent(m, n, pivotRow)
  {
    var row := pivotRow;
    while row < |m|
      invariant pivotRow <= row
      invariant forall r :: pivotRow <= r < row && r < |m| ==> !m[r][n]
    {
      if m[row][n] {
        return false;
      }
      row := row + 1;
    }
    ok := true;
  }

  /** A reduced matrix that fails the consistency check has no solution. */
  lemma InconsistentHasNoSolution(m: Matrix, n: nat, pivots: seq<nat>)
    requires Reduced(m, n, pivots, n) && !Consistent(m, n, |pivots|)
    ensures forall x :: !Solves(m, n, x)
  {
    var r :| |pivots| <= r < |m| && m[r][n];
    forall x | |x| == n
      ensures !RowHolds(m[r], n, x)
    {
      DotZero(m[r], x, 0, n);
    }
  }

  lemma {:induction false} IncreasingBelow(p: seq<nat>, n: nat)
    requires Increasing(p) && forall k :: 0 <= k < |p| ==> p[k] < n
    ensures |p| <= n
    decreases |p|
  {
    if |p| > 0 {
      var q := p[..|p| - 1];
      assert forall k :: 0 <= k < |q| ==> q[k] < p[|p| - 1];
      IncreasingBelow(q, p[|p| - 1]);
    }
  }

  /** The first column of `row` holding a 1, if any among `0 .. n-1`. */
  method LeadingColumn(row: seq<bool>, n: nat) returns (found: bool, col: nat)
    requires n <= |row|
    ensures found ==> col < n && row[col] && forall c :: 0 <= c < col ==> !row[c]
    ensures !found ==> forall c :: 0 <= c < n ==> !row[c]
  {
    col := 0;
    while col < n
      invariant col <= n
      invariant forall c :: 0 <= c < col ==> !row[c]
    {
      if row[col] {
        return true, col;
      }
      col := col + 1;
    }
    found := false;
  }

  /** The scan of the first `min(pivotRow, n)` rows for their leading 1
      (`pivot_cols` in the source) recovers exactly the pivot columns that
      elimination chose. */
  method PivotColumns(m: Matrix, n: nat, pivotRow: nat, ghost pivots: seq<nat>) returns (cols: seq<nat>)
    requires Reduced(m, n, pivots, n) && pivotRow == |pivots|
    ensures cols == pivots
    ensures forall k :: 0 <= k < |cols| ==> cols[k] < n && m[k][cols[k]]
    ensures forall k, c :: 0 <= k < |cols| && 0 <= c < cols[k] ==> !m[k][c]
  {
    IncreasingBelow(pivots, n);
    var rows := if pivotRow < n then pivotRow else n;
    cols := [];
    var row := 0;
    while row < rows
      invariant row <= rows && cols == pivots[..row]
    {
      var found, c := LeadingColumn(m[row], n);
      if found {
        cols := cols + [c];
      }
      row := row + 1;
    }
    assert pivots[..|pivots|] == pivots;
  }

  /** The non-pivot columns in increasing order (`free_vars`). */
  function FreeColumns(n: nat, pivots: seq<nat>): (free: seq<nat>)
    ensures forall c :: c in free <==> 0 <= c < n && c !in pivots
    ensures Increasing(free)
    ensures forall i :: 0 <= i < |free| ==> free[i] < n
  {
    if n == 0 then []
    else FreeColumns(n - 1, pivots) + (if n - 1 in pivots then [] else [n - 1])
  }

  /** For pivot row `k`, the value the row forces on its pivot variable given
      the later columns of `x`. */
  ghost predicate PivotEquations(m: Matrix, n: nat, pivots: seq<nat>, x: seq<bool>)
    requires Shaped(m, n) && |pivots| <= |m| && |x| == n
    requires forall k :: 0 <= k < |pivots| ==> pivots[k] < n
  {
    forall k :: 0 <= k < |pivots| ==> x[pivots[k]] == (m[k][n] != DotRange(m[k], x, pivots[k] + 1, n))
  }

  /** The value row `row` forces on its pivot variable `p`: its right-hand
      side plus its products with the columns after `p`. */
  method PivotValue(row: seq<bool>, n: nat, p: nat, x: seq<bool>) returns (v: bool)
    requires |row| == n + 1 && |x| == n && p < n
    ensures v == (row[n] != DotRange(row, x, p + 1, n))
  {
    v := row[n];
    var col := p + 1;
    while col < n
      invariant p + 1 <= col <= n
      invariant v == (row[n] != DotRange(row, x, p + 1, col))
    {
      v := v != (row[col] && x[col]);
      col := col + 1;
    }
  }

  /** Back-substitution: keep `init` on the non-pivot columns and, from the
      last pivot row up, set each pivot variable to the row's right-hand side
      plus the row's products with the later columns. */
  method BackSubstitute(m: Matrix, n: nat, pivots: seq<nat>, init: seq<bool>) returns (x: seq<bool>)
    requires Shaped(m, n) && |pivots| <= |m| && Increasing(pivots) && |init| == n
    requires forall k :: 0 <= k < |pivots| ==> pivots[k] < n
    ensures |x| == n
    ensures forall c :: 0 <= c < n && c !in pivots ==> x[c] == init[c]
    ensures PivotEquations(m, n, pivots, x)
  {
    x := init;
    var row := |pivots|;
    while row > 0
      invariant 0 <= row <= |pivots| && |x| == n
      invariant forall c :: 0 <= c < n && c !in pivots[row..] ==> x[c] == init[c]
      invariant forall k :: row <= k < |pivots| ==>
        x[pivots[k]] == (m[k][n] != DotRange(m[k], x, pivots[k] + 1, n))
    {
      row := row - 1;
      var p := pivots[row];
      var v := PivotValue(m[row], n, p, x);
      ghost var before := x;
      x := x[p := v];
      forall k | row <= k < |pivots|
        ensures DotRange(m[k], x, pivots[k] + 1, n) == DotRange(m[k], before, pivots[k] + 1, n)
      {
        DotCongruent(m[k], x, m[k], before, pivots[k] + 1, n);
      }
    }
    assert pivots[0..] == pivots;
  }

  /** In a reduced, consistent matrix every vector satisfying the pivot
      equations solves the system (soundness of back-substitution). */
  lemma PivotEquationsSolve(m: Matrix, n: nat, pivots: seq<nat>, x: seq<bool>)
    requires Reduced(m, n, pivots, n) && Consistent(m, n, |pivots|) && |x| == n
    requires PivotEquations(m, n, pivots, x)
    ensures Solves(m, n, x)
  {
    forall r | 0 <= r < |m|
      ensures RowHolds(m[r], n, x)
    {
      if r < |pivots| {
        PivotRowValue(m, n, pivots, x, r);
      } else {
        DotZero(m[r], x, 0, n);
      }
    }
  }

  /** In a reduced matrix every solution satisfies the pivot equations
      (so it is determined by its free columns). */
  lemma SolutionsMeetPivotEquations(m: Matrix, n: nat, pivots: seq<nat>, x: seq<bool>)
    requires Reduced(m, n, pivots, n) && Solves(m, n, x)
    ensures PivotEquations(m, n, pivots, x)
  {
    forall k | 0 <= k < |pivots|
      ensures x[pivots[k]] == (m[k][n] != DotRange(m[k], x, pivots[k] + 1, n))
    {
      assert RowHolds(m[k], n, x);
      PivotRowValue(m, n, pivots, x, k);
    }
  }

  /** Pivot row `k` dotted with `x` is the pivot bit plus the later products. */
  lemma PivotRowValue(m: Matrix, n: nat, pivots: seq<nat>, x: seq<bool>, k: nat)
    requires Reduced(m, n, pivots, n) && |x| == n && k < |pivots|
    ensures DotRange(m[k], x, 0, n) == (x[pivots[k]] != DotRange(m[k], x, pivots[k] + 1, n))
  {
    var p := pivots[k];
    DotSplit(m[k], x, 0, p, n);
    DotSplit(m[k], x, p, p + 1, n);
    DotZero(m[k], x, 0, p);
  }

  /** Two vectors satisfying the pivot equations that agree on the non-pivot
      columns are equal. */
  lemma PivotEquationsDetermine(m: Matrix, n: nat, pivots: seq<nat>, x: seq<bool>, y: seq<bool>)
    requires Reduced(m, n, pivots, n) && |x| == n && |y| == n
    requires PivotEquations(m, n, pivots, x) && PivotEquations(m, n, pivots, y)
    requires forall c :: 0 <= c < n && c !in pivots ==> x[c] == y[c]
    ensures x == y
  {
    forall k | 0 <= k < |pivots|
      ensures x[pivots[k]] == y[pivots[k]]
    {
      forall c | pivots[k] + 1 <= c < n
        ensures (m[k][c] && x[c]) == (m[k][c] && y[c])
      {
      }
      DotCongruent(m[k], x, m[k], y, pivots[k] + 1, n);
    }
    forall c | 0 <= c < n
      ensures x[c] == y[c]
    {
      if c in pivots {
        var j :| 0 <= j < |pivots| && pivots[j] == c;
      }
    }
  }
}
