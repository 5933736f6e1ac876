/** Powers of two, for the retry delay and for address masks. */
module Powers {

  /** 2^k. */
  function Pow2(k: nat): (n: nat)
    ensures n > 0
  {
    if k == 0 then 1 else 2 * Pow2(k - 1)
  }

  lemma {:induction false} PowSum(i: nat, j: nat)
    ensures Pow2(i + j) == Pow2(i) * Pow2(j)
  {
    if i > 0 {
      PowSum(i - 1, j);
      assert Pow2(i) * Pow2(j) == 2 * (Pow2(i - 1) * Pow2(j));
    }
  }

  lemma {:induction false} PowGrows(i: nat, j: nat)
    requires i <= j
    ensures Pow2(i) <= Pow2(j)
  {
    if i < j {
      PowGrows(i, j - 1);
    }
  }
}
