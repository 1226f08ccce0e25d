/** Facts about whole numbers that several parts of the model need. */
module Arithmetic {

  /** Quotient and remainder are unique. */
  lemma Euclid(x: nat, m: nat, q: nat, s: nat)
    requires 0 < m && s < m && x == q * m + s
    ensures x / m == q && x % m == s
  {
    var d := x / m - q;
    assert d * m == s - x % m;
    assert d >= 1 ==> d * m >= m;
    assert d <= -1 ==> d * m + m <= 0;
  }

  /** The numbers from lo up to, not including, hi. */
  ghost function Range(lo: nat, hi: nat): (r: set<nat>)
    ensures forall x: nat :: x in r <==> lo <= x < hi
    ensures lo <= hi ==> |r| == hi - lo
    decreases hi
  {
    if lo >= hi then {} else Range(lo, hi - 1) + {hi - 1}
  }
}
