/** Powers of two, as sizes of types. */
module Powers {

  function Pow2(n: nat): (p: nat)
    ensures p >= 1
  {
    if n == 0 then 1 else 2 * Pow2(n - 1)
  }

  /** No power of two is a multiple of five, and so none but 1 is a power of ten. */
  lemma {:induction false} Pow2NotFive(n: nat)
    ensures Pow2(n) % 5 != 0
  {
    if n > 0 {
      Pow2NotFive(n - 1);
      TwiceNotFive(Pow2(n - 1));
    }
  }

  lemma TwiceNotFive(p: nat)
    requires p % 5 != 0
    ensures 2 * p % 5 != 0
  {
  }
}
