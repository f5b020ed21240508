/**
  Bit vectors over GF(2), the field with two elements.  A bit is a `bool`;
  addition is `!=` (exclusive or) and multiplication is `&&`.

  A row of an augmented matrix over `n` unknowns has `n + 1` bits: the
  coefficients in columns `0 .. n-1` and the right-hand side in column `n`.
 */
module GF2 {

  /** The all-zero vector of length `n`. */
  function Zeros(n: nat): (z: seq<bool>)
    ensures |z| == n
    ensures forall i :: 0 <= i < n ==> !z[i]
  {
    seq(n, _ => false)
  }

  /** Hamming weight: the number of set bits (the number of button presses). */
  function Weight(x: seq<bool>): nat
  {
    if |x| == 0 then 0 else Weight(x[..|x| - 1]) + (if x[|x| - 1] then 1 else 0)
  }

  /** Pointwise sum of two rows of equal length. */
  function XorRows(a: seq<bool>, b: seq<bool>): (c: seq<bool>)
    requires |a| == |b|
    ensures |c| == |a|
    ensures forall k :: 0 <= k < |a| ==> c[k] == (a[k] != b[k])
  {
    seq(|a|, k requires 0 <= k < |a| => a[k] != b[k])
  }

  /** XORing the same row in twice restores the original: each elimination
      step can be undone. */
  lemma XorCancels(a: seq<bool>, b: seq<bool>)
    requires |a| == |b|
    ensures XorRows(XorRows(a, b), b) == a
  {
  }

  /** The GF(2) sum of `a[c] * x[c]` over the columns `lo <= c < hi`. */
  function DotRange(a: seq<bool>, x: seq<bool>, lo: nat, hi: nat): bool
    requires lo <= hi <= |a| && hi <= |x|
    decreases hi - lo
  {
    if hi == lo then false else DotRange(a, x, lo, hi - 1) != (a[hi - 1] && x[hi - 1])
  }

  /** Row `row` holds for the candidate `x` when its coefficients dotted with
      `x` give its right-hand side. */
  predicate RowHolds(row: seq<bool>, n: nat, x: seq<bool>)
    requires |row| == n + 1 && |x| == n
  {
    DotRange(row, x, 0, n) == row[n]
  }

  /** `x` solves every equation of the augmented matrix `m` over `n` unknowns. */
  predicate Solves(m: seq<seq<bool>>, n: nat, x: seq<bool>)
  {
    |x| == n && forall r :: 0 <= r < |m| ==> |m[r]| == n + 1 && RowHolds(m[r], n, x)
  }

  /** Splitting a range splits the dot product. */
  lemma {:induction false} DotSplit(a: seq<bool>, x: seq<bool>, lo: nat, mid: nat, hi: nat)
    requires lo <= mid <= hi <= |a| && hi <= |x|
    ensures DotRange(a, x, lo, hi) == (DotRange(a, x, lo, mid) != DotRange(a, x, mid, hi))
    decreases hi - mid
  {
    if hi > mid {
      DotSplit(a, x, lo, mid, hi - 1);
    }
  }

  /** The dot product only looks at the columns where both factors can
      contribute: two pairs that give the same products over the range give
      the same sum. */
  lemma {:induction false} DotCongruent(a: seq<bool>, x: seq<bool>, b: seq<bool>, y: seq<bool>, lo: nat, hi: nat)
    requires lo <= hi <= |a| && hi <= |x| && hi <= |b| && hi <= |y|
    requires forall c :: lo <= c < hi ==> (a[c] && x[c]) == (b[c] && y[c])
    ensures DotRange(a, x, lo, hi) == DotRange(b, y, lo, hi)
    decreases hi - lo
  {
    if hi > lo {
      DotCongruent(a, x, b, y, lo, hi - 1);
    }
  }

  /** A row of zero coefficients over the range contributes nothing. */
  lemma {:induction false} DotZero(a: seq<bool>, x: seq<bool>, lo: nat, hi: nat)
    requires lo <= hi <= |a| && hi <= |x|
    requires forall c :: lo <= c < hi ==> !a[c]
    ensures !DotRange(a, x, lo, hi)
    decreases hi - lo
  {
    if hi > lo {
      DotZero(a, x, lo, hi - 1);
    }
  }

  /** The dot product is linear in the row: adding two rows adds their dot products. */
  lemma {:induction false} DotXor(a: seq<bool>, b: seq<bool>, x: seq<bool>, lo: nat, hi: nat)
    requires |a| == |b| && lo <= hi <= |a| && hi <= |x|
    ensures DotRange(XorRows(a, b), x, lo, hi) == (DotRange(a, x, lo, hi) != DotRange(b, x, lo, hi))
    decreases hi - lo
  {
    if hi > lo {
      DotXor(a, b, x, lo, hi - 1);
    }
  }

  /** Adding row `b` to row `a` gives an equation that holds exactly when
      `a` and `b` agree on whether they hold. */
  lemma XorRowHolds(a: seq<bool>, b: seq<bool>, n: nat, x: seq<bool>)
    requires |a| == n + 1 && |b| == n + 1 && |x| == n
    ensures RowHolds(XorRows(a, b), n, x) <==> (RowHolds(a, n, x) <==> RowHolds(b, n, x))
  {
    DotXor(a, b, x, 0, n);
  }

  function Pow2(k: nat): (p: nat)
    ensures p >= 1
  {
    if k == 0 then 1 else 2 * Pow2(k - 1)
  }

  /** The `n` low bits of counter `c`, least significant first: element `i`
      is `(c >> i) & 1`. */
  function Bits(c: nat, n: nat): (v: seq<bool>)
    ensures |v| == n
  {
    if n == 0 then [] else [c % 2 == 1] + Bits(c / 2, n - 1)
  }

  /** The counter whose low bits are `v`, least significant first. */
  function FromBits(v: seq<bool>): nat
  {
    if |v| == 0 then 0 else (if v[0] then 1 else 0) + 2 * FromBits(v[1..])
  }

  /** Every vector of length `n` is the bit pattern of a counter below
      `2^n`: counting from 0 to `2^n - 1` visits all of `{0,1}^n`. */
  lemma {:induction false} BitsRoundTrip(v: seq<bool>)
    ensures FromBits(v) < Pow2(|v|)
    ensures Bits(FromBits(v), |v|) == v
  {
    if |v| > 0 {
      BitsRoundTrip(v[1..]);
      var c := FromBits(v);
      assert c % 2 == 1 <==> v[0];
      assert c / 2 == FromBits(v[1..]);
      assert v == [v[0]] + v[1..];
    }
  }

  /** Reading back the bit pattern of a counter below `2^n` gives the
      counter: distinct counters have distinct patterns, so with
      `BitsRoundTrip` each vector belongs to exactly one counter. */
  lemma {:induction false} FromBitsOfBits(c: nat, n: nat)
    requires c < Pow2(n)
    ensures FromBits(Bits(c, n)) == c
  {
    if n > 0 {
      FromBitsOfBits(c / 2, n - 1);
      assert Bits(c, n)[1..] == Bits(c / 2, n - 1);
    }
  }
}
