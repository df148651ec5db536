/** Bit masks as natural numbers: testing, setting and comparing bits. */
module Bits {

  /** The test `mask & 1 << k`. */
  predicate Has(mask: nat, k: nat) {
    if k == 0 then mask % 2 == 1 else Has(mask / 2, k - 1)
  }

  /** The value `mask | 1 << k`. */
  function With(mask: nat, k: nat): nat {
    if k == 0 then (if mask % 2 == 1 then mask else mask + 1) else 2 * With(mask / 2, k - 1) + mask % 2
  }

  function Power(n: nat): nat {
    if n == 0 then 1 else 2 * Power(n - 1)
  }

  /** Setting a bit sets that bit and no other. */
  lemma {:induction false} HasWith(mask: nat, k: nat, j: nat)
    ensures Has(With(mask, k), j) <==> Has(mask, j) || j == k
  {
    var result := With(mask, k);
    if k == 0 {
      assert result / 2 == mask / 2 && result % 2 == 1;
    } else {
      assert result / 2 == With(mask / 2, k - 1) && result % 2 == mask % 2;
      if j > 0 {
        HasWith(mask / 2, k - 1, j - 1);
      }
    }
  }

  /** Setting one of the lowest `n` bits stays below `2^n`. */
  lemma {:induction false} WithBound(mask: nat, k: nat, n: nat)
    requires mask < Power(n) && k < n
    ensures With(mask, k) < Power(n)
  {
    if k > 0 {
      WithBound(mask / 2, k - 1, n - 1);
    }
  }

  /** A mask is determined by its bits. */
  lemma {:induction false} SameBits(a: nat, b: nat, n: nat)
    requires a < Power(n) && b < Power(n)
    requires forall k | 0 <= k < n :: Has(a, k) <==> Has(b, k)
    ensures a == b
  {
    if n > 0 {
      assert Has(a, 0) <==> Has(b, 0);
      forall k | 0 <= k < n - 1 ensures Has(a / 2, k) <==> Has(b / 2, k) {
        assert Has(a, k + 1) <==> Has(b, k + 1);
      }
      SameBits(a / 2, b / 2, n - 1);
    }
  }
}
