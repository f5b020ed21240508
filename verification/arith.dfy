/**
  The few facts about multiplication and division on naturals that the
  solver does not find by itself.
 */
module Arith {

  lemma MulAtLeast(m: nat, d: nat)
    requires d >= 1
    ensures m * d >= m
  {
  }

  /** A multiple of `m` leaves no remainder and has quotient `k`. */
  lemma MulDivExact(k: nat, m: nat)
    requires m > 0
    ensures (k * m) % m == 0 && (k * m) / m == k
  {
    var a := k * m;
    var q, r := a / m, a % m;
    assert a == m * q + r;
    if q < k {
      var d := k - q;
      assert r == m * d;
      MulAtLeast(m, d);
    }
  }
}
