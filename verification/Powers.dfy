/** Powers of natural numbers, used for table sizes and digit counts. */
module Powers {

  function Pow(b: nat, e: nat): (r: nat)
    ensures b > 0 ==> r > 0
  {
    if e == 0 then 1 else b * Pow(b, e - 1)
  }

  lemma {:induction false} PowAdd(b: nat, d: nat, e: nat)
    ensures Pow(b, d + e) == Pow(b, d) * Pow(b, e)
  {
    if d == 0 {
    } else {
      PowAdd(b, d - 1, e);
      MulAssoc(b, Pow(b, d - 1), Pow(b, e));
    }
  }

  lemma MulAssoc(a: int, b: int, c: int)
    ensures a * (b * c) == (a * b) * c
  {}

  /** A base of at least one never shrinks a power when the exponent grows. */
  lemma {:induction false} PowMonotone(b: nat, d: nat, e: nat)
    requires b >= 1 && d <= e
    ensures Pow(b, d) <= Pow(b, e)
  {
    if d < e {
      PowMonotone(b, d, e - 1);
      MulGrows(b, Pow(b, e - 1));
    }
  }

  lemma MulGrows(b: nat, x: nat)
    requires b >= 1
    ensures x <= b * x
  {}

  lemma {:induction false} PowStrict(b: nat, d: nat, e: nat)
    requires b >= 2 && d < e
    ensures Pow(b, d) < Pow(b, e)
  {
    PowMonotone(b, d, e - 1);
    MulStrict(b, Pow(b, e - 1));
  }

  lemma MulStrict(b: nat, x: nat)
    requires b >= 2 && x >= 1
    ensures x < b * x
  {}
}
