/** INT_BITS_STRLEN_BOUND of gnumake/lib/intprops.h: how long the decimal form of a b-bit number can be. */
module IntBits {
  import opened Powers

  function StrlenBound(b: nat): nat {
    (b * 146 + 484) / 485
  }

  /** The decimal form of v. */
  function Decimal(v: nat): (s: string)
    ensures |s| >= 1
  {
    if v < 10 then [Digit(v)] else Decimal(v / 10) + [Digit(v % 10)]
  }

  function Digit(d: nat): char
    requires d < 10
  {
    '0' + d as char
  }

  /** A number has at most k digits exactly when it is below 10^k. */
  lemma {:induction false} LengthIff(v: nat, k: nat)
    requires k >= 1
    ensures |Decimal(v)| <= k <==> v < Pow(10, k)
  {
    if v < 10 {
      PowMonotone(10, 1, k);
    } else if k > 1 {
      LengthIff(v / 10, k - 1);
    }
  }

  /** Powers by squaring. */
  function FastPow(b: nat, e: nat): nat {
    if e == 0 then 1
    else
      var half := FastPow(b, e / 2);
      if e % 2 == 0 then half * half else half * half * b
  }

  lemma {:induction false} FastPowIsPow(b: nat, e: nat)
    ensures FastPow(b, e) == Pow(b, e)
  {
    if e > 0 {
      FastPowIsPow(b, e / 2);
      PowAdd(b, e / 2, e / 2);
    }
  }

  /**
   * The comparisons of powers that everything rests on, by calculation. The exponents are given
   * as differences: of a literal exponent such as 485 the solver would unfold all powers.
   */
  lemma TwoBelowTen(d: nat, e: nat)
    requires d - 400 == 85 && e - 100 == 46
    ensures Pow(2, d) < Pow(10, e)
  {
    assert FastPow(2, 485) < FastPow(10, 146);
    FastPowIsPow(2, d);
    FastPowIsPow(10, e);
  }

  lemma TenBelowTwo(d: nat, e: nat)
    requires d - 600 == 43 && e - 2100 == 36
    ensures Pow(10, d) < Pow(2, e)
  {
    assert FastPow(10, 643) < FastPow(2, 2136);
    FastPowIsPow(10, d);
    FastPowIsPow(2, e);
  }

  /** 2^2621 < 10^789 */
  lemma TwoBelowTenAgain(b: nat, k: nat)
    requires b == 2621 && k == 789
    ensures Pow(2, b) < Pow(10, k)
  {
    assert FastPow(2, 2621) < FastPow(10, 789);
    FastPowIsPow(2, b);
    FastPowIsPow(10, k);
  }

  lemma MulMonotone(a: nat, b: nat, c: nat, d: nat)
    requires a <= c && b <= d
    ensures a * b <= c * d
  {
    assert a * b <= c * b <= c * d;
  }

  lemma MulLess(a: nat, b: nat, c: nat, d: nat)
    requires a < c && b <= d && d > 0
    ensures a * b < c * d
  {
    assert a * b <= a * d < c * d;
  }

  /** x^n below y^n. */
  lemma {:induction false} PowLess(x: nat, y: nat, n: nat)
    requires x < y && n >= 1
    ensures Pow(x, n) < Pow(y, n)
  {
    if n > 1 {
      PowLess(x, y, n - 1);
      MulLess(x, Pow(x, n - 1), y, Pow(y, n - 1));
    }
  }

  lemma {:induction false} PowPow(b: nat, d: nat, n: nat, dn: nat)
    requires dn == d * n
    ensures Pow(Pow(b, d), n) == Pow(b, dn)
  {
    if n > 0 {
      assert dn - d == d * (n - 1);
      PowPow(b, d, n - 1, dn - d);
      PowAdd(b, d, dn - d);
    }
  }

  /** Of two powers of the same base the larger has the larger exponent. */
  lemma PowInverse(b: nat, d: nat, e: nat)
    requires b >= 2 && Pow(b, d) < Pow(b, e)
    ensures d < e
  {
    if e <= d { PowMonotone(b, e, d); }
  }

  lemma {:induction false} PowAtMost(x: nat, y: nat, n: nat)
    requires x <= y
    ensures Pow(x, n) <= Pow(y, n)
  {
    if n > 0 {
      PowAtMost(x, y, n - 1);
      MulMonotone(x, Pow(x, n - 1), y, Pow(y, n - 1));
    }
  }

  /** If x^d < y^e then x^(d b) < y^(e b). */
  lemma Scale(x: nat, d: nat, y: nat, e: nat, b: nat, db: nat, eb: nat)
    requires Pow(x, d) < Pow(y, e) && b >= 1 && db == d * b && eb == e * b
    ensures Pow(x, db) < Pow(y, eb)
  {
    PowLess(Pow(x, d), Pow(y, e), b);
    PowPow(x, d, b, db);
    PowPow(y, e, b, eb);
  }

  /** If y^k <= x^b then y^(k d) <= x^(b d). */
  lemma ScaleAtMost(y: nat, k: nat, x: nat, b: nat, d: nat, kd: nat, db: nat)
    requires Pow(y, k) <= Pow(x, b) && kd == k * d && db == b * d
    ensures Pow(y, kd) <= Pow(x, db)
  {
    PowAtMost(Pow(y, k), Pow(x, b), d);
    PowPow(y, k, d, kd);
    PowPow(x, b, d, db);
  }

  /** 2^(485 n) < 10^(146 n) */
  lemma TwoBelowTenScaled(d: nat, e: nat, n: nat, dn: nat, en: nat)
    requires d - 400 == 85 && e - 100 == 46 && n >= 1 && dn == d * n && en == e * n
    ensures Pow(2, dn) < Pow(10, en)
  {
    TwoBelowTen(d, e);
    Scale(2, d, 10, e, n, dn, en);
  }

  /** 10^(643 n) < 2^(2136 n) */
  lemma TenBelowTwoScaled(d: nat, e: nat, n: nat, dn: nat, en: nat)
    requires d - 600 == 43 && e - 2100 == 36 && n >= 1 && dn == d * n && en == e * n
    ensures Pow(10, dn) < Pow(2, en)
  {
    TenBelowTwo(d, e);
    Scale(10, d, 2, e, n, dn, en);
  }

  /** 2^b is below 10^k as soon as k / b is at least 146 / 485. */
  lemma BelowTen(b: nat, k: nat)
    requires b >= 1 && 146 * b <= 485 * k
    ensures Pow(2, b) < Pow(10, k)
  {
    var db, eb, kd := 485 * b, 146 * b, 485 * k;
    TwoBelowTenScaled(485, 146, b, db, eb);
    if Pow(10, k) <= Pow(2, b) {
      ScaleAtMost(10, k, 2, b, 485, kd, db);
      PowInverse(10, kd, eb);
    }
  }

  /** Every b-bit value prints in at most StrlenBound(b) digits. */
  lemma BoundHolds(b: nat, v: nat)
    requires b >= 1 && v < Pow(2, b)
    ensures |Decimal(v)| <= (b * 146 + 484) / 485
  {
    BelowTen(b, StrlenBound(b));
    LengthIff(v, StrlenBound(b));
  }

  /** A fraction between 643 / 2136 and 146 / 485 has a denominator of at least 2136 + 485. */
  lemma Between(b: nat, m: nat)
    requires 643 * b < 2136 * m && 485 * m < 146 * b
    ensures b >= 2621
  {
    assert b == 2136 * (146 * b - 485 * m) + 485 * (2136 * m - 643 * b);
  }

  /** 10^m is below 2^b, if m / b is below 146 / 485 and b below 485 + 2136. */
  lemma AboveTen(b: nat, m: nat)
    requires 1 <= b < 2621 && 485 * m < 146 * b
    ensures Pow(10, m) < Pow(2, b)
  {
    var db, eb, em := 643 * b, 2136 * b, 2136 * m;
    TenBelowTwoScaled(643, 2136, b, db, eb);
    if Pow(2, b) <= Pow(10, m) {
      ScaleAtMost(2, b, 10, m, 2136, eb, em);
      PowInverse(10, db, em);
      Between(b, m);
    }
  }

  ghost predicate Tight(b: nat) {
    exists v: nat :: v < Pow(2, b) && |Decimal(v)| == StrlenBound(b)
  }

  /** Below 2621 bits the bound is reached. */
  lemma TightBelow(b: nat)
    requires 1 <= b < 2621
    ensures Tight(b)
  {
    var k := StrlenBound(b);
    var v := Pow(2, b) - 1;
    AboveTen(b, k - 1);
    BoundHolds(b, v);
    if k > 1 { LengthIff(v, k - 1); }
  }

  /** With 2621 bits it is not. */
  lemma NotTight(b: nat)
    requires b == 2621
    ensures !Tight(b)
  {
    var k := 789;
    TwoBelowTenAgain(b, k);
    forall v: nat | v < Pow(2, b) ensures |Decimal(v)| < StrlenBound(b) {
      LengthIff(v, k);
    }
  }
}
