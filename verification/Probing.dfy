/** The probe sequence of hash_find_slot: a 32-bit index stepped by an odd increment. */
module Probing {
  import opened Powers

  /** Number of values of the unsigned int that holds the probe index. */
  const UINT := 0x1_0000_0000

  /** hash_2 = hash | 1, truncated to unsigned int. */
  function Odd(hash: nat): (r: nat)
    ensures r % 2 == 1 && hash % UINT <= r <= hash % UINT + 1
  {
    var u := hash % UINT;
    if u % 2 == 0 then u + 1 else u
  }

  /** Masking by size - 1 on a table whose size is a power of two. */
  function Mask(x: nat, size: nat): (r: nat)
    requires size > 0
    ensures r == x % size && r < size && r <= x
  {
    assert x == x / size * size + x % size;
    Product(x / size, size);
    x % size
  }

  lemma Product(a: nat, b: nat)
    ensures a * b >= 0
  {}

  /** Slot looked at after n steps: add the increment modulo 2^32, then mask by size - 1. */
  function Slot(hash: nat, step: nat, size: nat, n: nat): (r: nat)
    requires size > 0
    ensures r < size && r < UINT
  {
    if n == 0 then Mask(hash % UINT, size)
    else Mask((Slot(hash, step, size, n - 1) + step) % UINT, size)
  }

  lemma UintIsPow()
    ensures Pow(2, 32) == UINT
  {
    assert Pow(2, 4) == 16;
    PowAdd(2, 4, 4);
    PowAdd(2, 8, 8);
    PowAdd(2, 16, 16);
  }

  lemma ModUnique(x: int, m: nat, q: int, r: nat)
    requires x == q * m + r && r < m
    ensures x % m == r
  {
    var q' := x / m;
    assert x == q' * m + x % m;
    if q < q' { Multiple(q' - q, m); Factor(q', q, m); } else if q > q' { Multiple(q - q', m); Factor(q, q', m); }
  }

  lemma Factor(a: int, b: int, m: int)
    ensures (a - b) * m == a * m - b * m
  {}

  lemma Multiple(k: nat, m: nat)
    requires k >= 1
    ensures k * m >= m
  {}

  /** Reducing modulo a multiple of m first does not change the residue modulo m. */
  lemma ModOfMultiple(x: nat, c: nat, m: nat)
    requires c > 0 && m > 0 && c * m > 0
    ensures (x % (c * m)) % m == x % m
  {
    var y := x % (c * m);
    var q := x / (c * m);
    assert x == q * (c * m) + y;
    MulAssoc(q, c, m);
    Factor(q * c, -(y / m), m);
    ModUnique(x, m, q * c + y / m, y % m);
  }

  lemma AddMod(a: nat, b: nat, m: nat)
    requires m > 0
    ensures (a % m + b) % m == (a + b) % m
  {
    var q := (a % m + b) / m;
    Factor(a / m, -q, m);
    ModUnique(a + b, m, a / m + q, (a % m + b) % m);
  }

  /** On tables of at most 2^32 slots the n-th slot is (hash + n * step) mod size. */
  lemma {:induction false} SlotClosed(hash: nat, step: nat, k: nat, n: nat)
    requires k <= 32
    ensures Slot(hash, step, Pow(2, k), n) == (hash + n * step) % Pow(2, k)
  {
    if n == 0 {
      MaskAfterWrap(hash, k);
    } else {
      SlotClosed(hash, step, k, n - 1);
      MaskAfterWrap(Slot(hash, step, Pow(2, k), n - 1) + step, k);
      AddMod(hash + (n - 1) * step, step, Pow(2, k));
      Factor(n, 1, step);
    }
  }

  /** Wrapping at 32 bits is invisible behind a mask of at most 32 bits. */
  lemma MaskAfterWrap(x: nat, k: nat)
    requires k <= 32
    ensures (x % UINT) % Pow(2, k) == x % Pow(2, k)
  {
    PowAdd(2, 32 - k, k);
    UintIsPow();
    ModOfMultiple(x, Pow(2, 32 - k), Pow(2, k));
  }

  /** An odd step solves every congruence modulo a power of two. */
  lemma {:induction false} OddStepSolves(hash: nat, step: nat, target: int, k: nat) returns (n: nat, q: int)
    requires step % 2 == 1
    ensures n < Pow(2, k)
    ensures hash + n * step == target + q * Pow(2, k)
  {
    if k == 0 {
      n, q := 0, hash - target;
    } else {
      var p := Pow(2, k - 1);
      var n0, q0 := OddStepSolves(hash, step, target, k - 1);
      if q0 % 2 == 0 {
        n, q := n0, q0 / 2;
        Halve(q, p);
      } else {
        n, q := n0 + p, (q0 + step) / 2;
        Halve(q, p);
        Factor(n0, -(p as int), step);
        Factor(q0, -(step as int), p);
      }
    }
  }

  lemma Halve(q: int, p: nat)
    ensures q * (2 * p) == (2 * q) * p
  {}

  ghost predicate Visits(hash: nat, step: nat, size: nat, target: nat)
    requires size > 0
  {
    exists n: nat :: Slot(hash, step, size, n) == target
  }

  /** An odd step over a power-of-two table of at most 2^32 slots visits every slot. */
  lemma VisitsSlot(hash: nat, step: nat, k: nat, target: nat) returns (n: nat)
    requires k <= 32 && step % 2 == 1 && target < Pow(2, k)
    ensures n < Pow(2, k) && Slot(hash, step, Pow(2, k), n) == target
  {
    var q: int;
    n, q := OddStepSolves(hash, step, target, k);
    ModUnique(hash + n * step, Pow(2, k), q, target);
    SlotClosed(hash, step, k, n);
  }

  /** In a larger table the probe sequence is that of a table of 2^32 slots. */
  lemma {:induction false} SlotOfLarge(hash: nat, step: nat, k: nat, n: nat)
    requires k >= 32
    ensures Slot(hash, step, Pow(2, k), n) == Slot(hash, step, Pow(2, 32), n)
  {
    PowMonotone(2, 32, k);
    UintIsPow();
    if n == 0 {
      SmallMod(hash % UINT, Pow(2, k));
      SmallMod(hash % UINT, UINT);
    } else {
      SlotOfLarge(hash, step, k, n - 1);
      var x := (Slot(hash, step, Pow(2, 32), n - 1) + step) % UINT;
      SmallMod(x, Pow(2, k));
      SmallMod(x, UINT);
    }
  }

  lemma SmallMod(x: nat, m: nat)
    requires x < m
    ensures x % m == x
  {}

  /** In a table of any size an odd step visits exactly the slots that a 32-bit index can name. */
  lemma VisitsIff(hash: nat, step: nat, k: nat, target: nat)
    requires step % 2 == 1 && target < Pow(2, k)
    ensures Visits(hash, step, Pow(2, k), target) <==> target < UINT
  {
    if target < UINT {
      UintIsPow();
      if k <= 32 {
        var n := VisitsSlot(hash, step, k, target);
      } else {
        var n := VisitsSlot(hash, step, 32, target);
        SlotOfLarge(hash, step, k, n);
      }
    }
  }

  /**
   * The probe sequence reaches every slot of a power-of-two table exactly when the
   * table has at most 2^32 slots: the index is an unsigned int, the size is not.
   */
  lemma VisitsAllIff(hash: nat, step: nat, k: nat)
    requires step % 2 == 1
    ensures (forall target: nat :: target < Pow(2, k) ==> Visits(hash, step, Pow(2, k), target)) <==> k <= 32
  {
    UintIsPow();
    forall target: nat | target < Pow(2, k) ensures Visits(hash, step, Pow(2, k), target) <==> target < UINT {
      VisitsIff(hash, step, k, target);
    }
    if k <= 32 {
      PowMonotone(2, k, 32);
    } else {
      PowStrict(2, 32, k);
      var missed: nat := UINT;
      assert missed < Pow(2, k) && !Visits(hash, step, Pow(2, k), missed);
    }
  }
}
