/** Powers, and capacities that double. */
module Powers {

  function Power(b: nat, e: nat): nat {
    if e == 0 then 1 else b * Power(b, e - 1)
  }

  predicate PowerOfTwo(n: nat) {
    n == 1 || (n > 1 && n % 2 == 0 && PowerOfTwo(n / 2))
  }

  function Log2(n: nat): nat {
    if n <= 1 then 0 else 1 + Log2(n / 2)
  }

  /** Just the powers 1, 2, 4 and so on. */
  lemma {:induction false} PowerOfTwoSpelled(n: nat)
    ensures PowerOfTwo(n) <==> n == Power(2, Log2(n))
  {
    if n > 1 {
      PowerOfTwoSpelled(n / 2);
      assert n == 2 * (n / 2) + n % 2;
    }
  }

  lemma {:induction false} Log2OfPower(e: nat)
    ensures Log2(Power(2, e)) == e && Power(2, e) > 0
  {
    if e > 0 {
      Log2OfPower(e - 1);
      assert Power(2, e) / 2 == Power(2, e - 1);
    }
  }
}
