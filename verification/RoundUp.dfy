/** round_up_2: the bit smearing that turns a requested capacity into a table size. */
module RoundUp {
  import opened Powers

  /** Bitwise or of two unsigned integers. */
  function Or(a: nat, b: nat): nat
    decreases a + b
  {
    if a == 0 && b == 0 then 0
    else 2 * Or(a / 2, b / 2) + (if a % 2 == 1 || b % 2 == 1 then 1 else 0)
  }

  function ShiftRight(n: nat, d: nat): nat
    decreases d
  {
    if d == 0 then n else ShiftRight(n / 2, d - 1)
  }

  function Smear(n: nat, d: nat): nat {
    Or(n, ShiftRight(n, d))
  }

  /** The six smearing steps over a 64-bit word. */
  function SmearAll(n: nat): nat {
    Smear(Smear(Smear(Smear(Smear(Smear(n, 1), 2), 4), 8), 16), 32)
  }

  /** The final increment wraps at the width of unsigned long. */
  function RoundUp2(n: nat): nat {
    if SmearAll(n) + 1 == Pow(2, 64) then 0 else SmearAll(n) + 1
  }

  // ---- shifts ----

  lemma {:induction false} ShiftShift(n: nat, c: nat, d: nat)
    ensures ShiftRight(n, c + d) == ShiftRight(ShiftRight(n, c), d)
    decreases c
  {
    if c > 0 { ShiftShift(n / 2, c - 1, d); }
  }

  /** The quotient and the remainder that a right shift splits a number into. */
  lemma {:induction false} ShiftSplit(n: nat, d: nat) returns (r: nat)
    ensures r < Pow(2, d)
    ensures n == ShiftRight(n, d) * Pow(2, d) + r
    decreases d
  {
    if d == 0 {
      r := 0;
    } else {
      var r' := ShiftSplit(n / 2, d - 1);
      r := 2 * r' + n % 2;
      Double(ShiftRight(n, d), Pow(2, d - 1));
    }
  }

  lemma Double(a: nat, p: nat)
    ensures a * (2 * p) == 2 * (a * p)
  {}

  lemma {:induction false} ShiftZero(n: nat, len: nat)
    ensures ShiftRight(n, len) == 0 <==> n < Pow(2, len)
    decreases len
  {
    if len > 0 { ShiftZero(n / 2, len - 1); }
  }

  lemma {:induction false} OnesShift(a: nat, d: nat)
    requires d <= a
    ensures ShiftRight(Pow(2, a) - 1, d) == Pow(2, a - d) - 1
    decreases d
  {
    if d > 0 {
      assert (Pow(2, a) - 1) / 2 == Pow(2, a - 1) - 1;
      OnesShift(a - 1, d - 1);
    }
  }

  // ---- bitwise or ----

  lemma {:induction false} OrShift(a: nat, b: nat, d: nat)
    ensures ShiftRight(Or(a, b), d) == Or(ShiftRight(a, d), ShiftRight(b, d))
    decreases d
  {
    if d > 0 { OrShift(a / 2, b / 2, d - 1); }
  }

  lemma {:induction false} OrZero(a: nat)
    ensures Or(a, 0) == a
  {
    if a != 0 { OrZero(a / 2); }
  }

  /** Or-ing d low bits that are all ones into any d low bits gives all ones. */
  lemma {:induction false} OrOnes(a: nat, r: nat, d: nat)
    requires r < Pow(2, d)
    ensures Or(a * Pow(2, d) + r, Pow(2, d) - 1) == a * Pow(2, d) + Pow(2, d) - 1
  {
    if d == 0 {
      OrZero(a);
    } else {
      var p := Pow(2, d - 1);
      Double(a, p);
      OrOnes(a, r / 2, d - 1);
      OrHalves(a * (2 * p) + r, 2 * p - 1, a * p + r / 2, p - 1);
    }
  }

  /** One unfolding of the or when the second operand is odd. */
  lemma OrHalves(x: nat, y: nat, x2: nat, y2: nat)
    requires x / 2 == x2 && y == 2 * y2 + 1
    ensures Or(x, y) == 2 * Or(x2, y2) + 1
  {}

  /** If what lies above `low` bits is `ones` ones, or-ing in `low` ones extends the run. */
  lemma OrLow(n: nat, ones: nat, low: nat)
    requires ShiftRight(n, low) == Pow(2, ones) - 1
    ensures Or(n, Pow(2, low) - 1) == Pow(2, ones + low) - 1
  {
    var r := ShiftSplit(n, low);
    OrOnes(Pow(2, ones) - 1, r, low);
    PowAdd(2, ones, low);
    Distribute(Pow(2, ones), Pow(2, low));
  }

  lemma Distribute(a: nat, p: nat)
    requires a >= 1
    ensures (a - 1) * p + p == a * p
  {}

  // ---- smearing ----

  /** n has at most `len` bits and the leading `ones` of them (or all of them) are set. */
  predicate LeadingOnes(n: nat, len: nat, ones: nat) {
    var k := if ones <= len then ones else len;
    n < Pow(2, len) && ShiftRight(n, len - k) == Pow(2, k) - 1
  }

  lemma SmearBounded(n: nat, d: nat, len: nat)
    requires n < Pow(2, len)
    ensures Smear(n, d) < Pow(2, len)
  {
    var m := ShiftRight(n, d);
    OrShift(n, m, len);
    ShiftZero(n, len);
    ShiftShift(n, d, len);
    ShiftShift(n, len, d);
    ShiftZero(0, d);
    ShiftZero(Or(n, m), len);
  }

  /** Each step doubles the run of leading ones, until the run fills the number. */
  lemma SmearStep(n: nat, len: nat, ones: nat)
    requires ones >= 1 && LeadingOnes(n, len, ones)
    ensures LeadingOnes(Smear(n, ones), len, 2 * ones)
  {
    SmearBounded(n, ones, len);
    var m := ShiftRight(n, ones);
    if 2 * ones <= len {
      var t := len - 2 * ones;
      OrShift(n, m, t);
      ShiftShift(n, ones, t);
      ShiftShift(n, t, ones);
      OrLow(ShiftRight(n, t), ones, ones);
    } else if ones <= len {
      var low := len - ones;
      ShiftShift(n, low, ones - low);
      OnesShift(ones, ones - low);
      OrLow(n, ones, low);
    } else {
      PowMonotone(2, len, ones);
      ShiftZero(n, ones);
      OrZero(n);
    }
  }

  lemma {:induction false} BitLength(n: nat) returns (len: nat)
    ensures n < Pow(2, len)
    ensures len > 0 ==> Pow(2, len - 1) <= n && ShiftRight(n, len - 1) == 1
  {
    if n <= 1 {
      len := n;
    } else {
      var l := BitLength(n / 2);
      len := l + 1;
    }
  }

  lemma SmearAllOnes(n: nat, len: nat)
    requires len <= 64 && n < Pow(2, len) && (len > 0 ==> ShiftRight(n, len - 1) == 1)
    ensures SmearAll(n) == Pow(2, len) - 1
  {
    SmearStep(n, len, 1);
    var n1 := Smear(n, 1);
    SmearStep(n1, len, 2);
    var n2 := Smear(n1, 2);
    SmearStep(n2, len, 4);
    var n3 := Smear(n2, 4);
    SmearStep(n3, len, 8);
    var n4 := Smear(n3, 8);
    SmearStep(n4, len, 16);
    var n5 := Smear(n4, 16);
    SmearStep(n5, len, 32);
  }

  /**
   * The result is the least power of two strictly above n whenever that power fits
   * in 64 bits, and wraps to zero for exactly the remaining arguments.
   */
  lemma RoundUp2Correct(n: nat) returns (len: nat)
    requires n < Pow(2, 64)
    ensures len <= 64 && n < Pow(2, len) && (len > 0 ==> Pow(2, len - 1) <= n)
    ensures RoundUp2(n) == if n < Pow(2, 63) then Pow(2, len) else 0
    ensures n < Pow(2, 63) <==> RoundUp2(n) > n
  {
    len := BitLength(n);
    if len > 64 { PowMonotone(2, 64, len - 1); assert false; }
    SmearAllOnes(n, len);
    if len <= 63 {
      PowMonotone(2, len, 63);
      PowStrict(2, len, 64);
    }
  }
}
