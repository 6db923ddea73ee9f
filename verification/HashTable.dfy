/**
 * The open-addressing hash table of gnumake/src/hash.c: double hashing, tombstones and
 * a rehash that either keeps or doubles the size.
 */
module HashTable {

  import opened Powers
  import opened Probing
  import RoundUp
  import opened Wrappers

  /** A cell of ht_vec: null, hash_deleted_item, or an item. */
  datatype Cell<+T> = Null | Deleted | Live(item: T)

  /** The three caller-supplied functions; `same` stands for a comparison result of zero. */
  datatype Hashing<!T> = Hashing(hash1: T -> nat, hash2: T -> nat, same: (T, T) -> bool)

  /** What every caller of the table guarantees about its three functions. */
  ghost predicate Respects<T(!new)>(h: Hashing<T>) {
    && (forall x: T :: h.same(x, x))
    && (forall x: T, y: T :: h.same(x, y) ==> h.same(y, x))
    && (forall x: T, y: T, z: T :: h.same(x, y) && h.same(y, z) ==> h.same(x, z))
    && (forall x: T, y: T :: h.same(x, y) ==> h.hash1(x) == h.hash1(y) && h.hash2(x) == h.hash2(y))
  }

  lemma SameProbe<T(!new)>(h: Hashing<T>, x: T, y: T, size: nat, n: nat)
    requires Respects(h) && size > 0
    ensures h.same(x, y) ==> Probe(h, x, size, n) == Probe(h, y, size, n)
  {}

  lemma Apart<T(!new)>(h: Hashing<T>, x: T, y: T, z: T)
    requires Respects(h) && h.same(x, y) && (!h.same(y, z) || !h.same(z, y))
    ensures !h.same(x, z) && !h.same(z, x)
  {}

  // ---- the layout of a slot vector ----

  /** Slot probed for a key after n steps. */
  function Probe<T>(h: Hashing<T>, key: T, size: nat, n: nat): (r: nat)
    requires size > 0
    ensures r < size
  {
    Slot(h.hash1(key), Odd(h.hash2(key)), size, n)
  }

  /** No null slot comes before step n on the probe path of a key. */
  ghost predicate Unbroken<T>(h: Hashing<T>, vec: seq<Cell<T>>, key: T, n: nat)
    requires |vec| > 0
  {
    forall m: nat :: m < n ==> vec[Probe(h, key, |vec|, m)] != Null
  }

  ghost predicate OnPath<T>(h: Hashing<T>, vec: seq<Cell<T>>, key: T, slot: nat)
    requires |vec| > 0
  {
    exists n: nat :: Probe(h, key, |vec|, n) == slot && Unbroken(h, vec, key, n)
  }

  /** Every item can be reached from its own hash without crossing a null slot. */
  ghost predicate Placed<T>(h: Hashing<T>, vec: seq<Cell<T>>)
    requires |vec| > 0
  {
    forall j :: 0 <= j < |vec| && vec[j].Live? ==> OnPath(h, vec, vec[j].item, j)
  }

  /** No two live slots hold items that compare equal. */
  ghost predicate Unique<T>(h: Hashing<T>, vec: seq<Cell<T>>) {
    forall i, j :: 0 <= i < j < |vec| && vec[i].Live? && vec[j].Live? ==> !h.same(vec[i].item, vec[j].item)
  }

  /** Slots that a 32-bit index cannot name are never used. */
  ghost predicate Beyond<T>(vec: seq<Cell<T>>) {
    forall j :: UINT <= j < |vec| ==> vec[j] == Null
  }

  ghost predicate Layout<T(!new)>(h: Hashing<T>, vec: seq<Cell<T>>, logSize: nat) {
    Respects(h) && |vec| == Pow(2, logSize) && Placed(h, vec) && Unique(h, vec) && Beyond(vec)
  }

  /** A slot that an index can name is null. */
  ghost predicate NullInReach<T>(vec: seq<Cell<T>>) {
    exists j :: 0 <= j < |vec| && j < UINT && vec[j] == Null
  }

  /** The items a slot vector holds. */
  ghost function Items<T>(vec: seq<Cell<T>>): (r: set<T>) {
    set j | 0 <= j < |vec| && vec[j].Live? :: vec[j].item
  }

  ghost function Nulls<T>(vec: seq<Cell<T>>): nat {
    multiset(vec)[Null]
  }

  /** The probe loop stops at this cell when it looks for this key. */
  ghost predicate StopsAt<T>(h: Hashing<T>, key: T, cell: Cell<T>) {
    cell == Null || (cell.Live? && h.same(key, cell.item))
  }

  /** The probe loop for a key terminates. */
  ghost predicate Terminates<T>(h: Hashing<T>, vec: seq<Cell<T>>, key: T)
    requires |vec| > 0
  {
    exists n: nat :: StopsAt(h, key, vec[Probe(h, key, |vec|, n)])
  }

  /**
   * A lookup terminates exactly when a null slot is in reach or an equal item is stored; a
   * table with neither makes hash_find_slot loop forever.
   */
  lemma TerminatesIff<T(!new)>(h: Hashing<T>, vec: seq<Cell<T>>, logSize: nat, key: T)
    requires Layout(h, vec, logSize)
    ensures Terminates(h, vec, key) <==> NullInReach(vec) || exists x :: x in Items(vec) && h.same(key, x)
  {
    if Terminates(h, vec, key) {
      var n: nat :| StopsAt(h, key, vec[Probe(h, key, |vec|, n)]);
      var j := Probe(h, key, |vec|, n);
      if vec[j].Live? { assert vec[j].item in Items(vec); }
    }
    if NullInReach(vec) || exists x :: x in Items(vec) && h.same(key, x) {
      var j := StoppingSlot(h, vec, key);
      VisitsIff(h.hash1(key), Odd(h.hash2(key)), logSize, j);
      var n: nat :| Slot(h.hash1(key), Odd(h.hash2(key)), Pow(2, logSize), n) == j;
      assert Probe(h, key, |vec|, n) == j;
    }
  }

  lemma StoppingSlot<T>(h: Hashing<T>, vec: seq<Cell<T>>, key: T) returns (j: nat)
    requires Beyond(vec) && (NullInReach(vec) || exists x :: x in Items(vec) && h.same(key, x))
    ensures j < |vec| && j < UINT && StopsAt(h, key, vec[j])
  {
    if NullInReach(vec) {
      j :| 0 <= j < |vec| && j < UINT && vec[j] == Null;
    } else {
      var x :| x in Items(vec) && h.same(key, x);
      j :| 0 <= j < |vec| && vec[j].Live? && vec[j].item == x;
    }
  }

  /** Reaching a null slot without a match proves that no equal item is stored. */
  lemma NoMatchBeforeNull<T(!new)>(h: Hashing<T>, vec: seq<Cell<T>>, logSize: nat, key: T, n: nat)
    requires Layout(h, vec, logSize)
    requires vec[Probe(h, key, |vec|, n)] == Null
    requires forall m: nat :: m < n ==> !StopsAt(h, key, vec[Probe(h, key, |vec|, m)])
    ensures forall x :: x in Items(vec) ==> !h.same(key, x)
  {
    forall x | x in Items(vec)
      ensures !h.same(key, x)
    {
      var j :| 0 <= j < |vec| && vec[j].Live? && vec[j].item == x;
      assert OnPath(h, vec, x, j);
      var n': nat :| Probe(h, x, |vec|, n') == j && Unbroken(h, vec, x, n');
      SameProbe(h, key, x, |vec|, n);
      SameProbe(h, key, x, |vec|, n');
    }
  }

  /** The abstract effect of storing an item: it replaces whatever compared equal. */
  ghost function Without<T>(h: Hashing<T>, items: set<T>, key: T): set<T> {
    set x | x in items && !h.same(key, x)
  }

  /** Storing an item in the slot found for it keeps the layout. */
  lemma StoreKeepsLayout<T(!new)>(h: Hashing<T>, vec: seq<Cell<T>>, logSize: nat, slot: nat, item: T)
    requires Layout(h, vec, logSize) && slot < |vec|
    requires FoundFor(h, vec, item, slot)
    ensures Layout(h, vec[slot := Live(item)], logSize)
    ensures Items(vec[slot := Live(item)]) == Without(h, Items(vec), item) + {item}
  {
    var vec' := vec[slot := Live(item)];
    forall j | 0 <= j < |vec'| && vec'[j].Live?
      ensures OnPath(h, vec', vec'[j].item, j)
    {
      OnPathKept(h, vec, vec', vec'[j].item, j, if j == slot && vec[j].Live? then vec[j].item else vec'[j].item);
    }
    StoreItems(h, vec, slot, item);
  }

  lemma OnPathKept<T(!new)>(h: Hashing<T>, vec: seq<Cell<T>>, vec': seq<Cell<T>>, item: T, j: nat, was: T)
    requires Respects(h) && |vec| == |vec'| > 0
    requires forall i :: 0 <= i < |vec| && vec[i] != Null ==> vec'[i] != Null
    requires h.same(item, was) && OnPath(h, vec, was, j)
    ensures OnPath(h, vec', item, j)
  {
    var n: nat :| Probe(h, was, |vec|, n) == j && Unbroken(h, vec, was, n);
    forall m: nat | m < n
      ensures vec'[Probe(h, item, |vec'|, m)] != Null
    {
      assert vec[Probe(h, was, |vec|, m)] != Null;
    }
    assert Probe(h, item, |vec'|, n) == j;
  }

  lemma StoreItems<T(!new)>(h: Hashing<T>, vec: seq<Cell<T>>, slot: nat, item: T)
    requires Respects(h) && slot < |vec| && Unique(h, vec)
    requires vec[slot].Live? ==> h.same(item, vec[slot].item)
    requires !vec[slot].Live? ==> forall x :: x in Items(vec) ==> !h.same(item, x)
    ensures Unique(h, vec[slot := Live(item)])
    ensures Items(vec[slot := Live(item)]) == Without(h, Items(vec), item) + {item}
  {
    var vec' := vec[slot := Live(item)];
    forall j | 0 <= j < |vec| && vec[j].Live? && j != slot
      ensures !h.same(item, vec[j].item) && !h.same(vec[j].item, item) && vec[j].item in Items(vec)
    {
      assert vec[j].item in Items(vec);
      if vec[slot].Live? { Apart(h, item, vec[slot].item, vec[j].item); }
    }
    forall x ensures x in Items(vec') <==> x in Without(h, Items(vec), item) + {item} {
      if x in Items(vec') {
        var j :| 0 <= j < |vec'| && vec'[j].Live? && vec'[j].item == x;
      }
      if x == item {
        assert vec'[slot].item == x;
      } else if x in Without(h, Items(vec), item) {
        var j :| 0 <= j < |vec| && vec[j].Live? && vec[j].item == x;
        assert j != slot && vec'[j] == vec[j];
      }
    }
  }

  /** Turning a live slot into a tombstone keeps the layout. */
  lemma DeleteKeepsLayout<T(!new)>(h: Hashing<T>, vec: seq<Cell<T>>, logSize: nat, slot: nat, key: T)
    requires Layout(h, vec, logSize) && slot < |vec|
    requires vec[slot].Live? && h.same(key, vec[slot].item)
    ensures Layout(h, vec[slot := Deleted], logSize)
    ensures Items(vec[slot := Deleted]) == Without(h, Items(vec), key)
    ensures Items(vec) == Items(vec[slot := Deleted]) + {vec[slot].item}
    ensures vec[slot].item !in Items(vec[slot := Deleted])
  {
    var vec' := vec[slot := Deleted];
    forall j | 0 <= j < |vec'| && vec'[j].Live?
      ensures OnPath(h, vec', vec'[j].item, j)
    {
      OnPathKept(h, vec, vec', vec[j].item, j, vec[j].item);
    }
    forall j | 0 <= j < |vec| && vec[j].Live? && j != slot
      ensures vec[j].item in Items(vec') && !h.same(key, vec[j].item)
    {
      assert vec'[j] == vec[j];
      Apart(h, key, vec[slot].item, vec[j].item);
    }
    assert vec[slot].item in Items(vec);
    forall x ensures x in Items(vec) <==> x in Items(vec') + {vec[slot].item} {
      if x in Items(vec) {
        var j :| 0 <= j < |vec| && vec[j].Live? && vec[j].item == x;
      }
    }
  }

  /**
   * What hash_find_slot returns: the slot of the equal item if there is one, and
   * otherwise a vacant slot that an insertion may use.
   */
  ghost predicate FoundFor<T>(h: Hashing<T>, vec: seq<Cell<T>>, key: T, slot: nat)
    requires slot < |vec|
  {
    && OnPath(h, vec, key, slot)
    && (vec[slot].Live? ==> h.same(key, vec[slot].item))
    && (!vec[slot].Live? ==> forall x :: x in Items(vec) ==> !h.same(key, x))
  }

  /** The slot is the first one on the probe path that holds no item. */
  ghost predicate FirstVacant<T>(h: Hashing<T>, vec: seq<Cell<T>>, key: T, slot: nat)
    requires slot < |vec|
  {
    !vec[slot].Live? && exists n: nat :: Probe(h, key, |vec|, n) == slot && AllLive(h, vec, key, n)
  }

  ghost predicate AllLive<T>(h: Hashing<T>, vec: seq<Cell<T>>, key: T, n: nat)
    requires |vec| > 0
  {
    forall m: nat :: m < n ==> vec[Probe(h, key, |vec|, m)].Live?
  }

  /** The first n probes did not stop the loop. */
  ghost predicate Passed<T>(h: Hashing<T>, vec: seq<Cell<T>>, key: T, n: nat)
    requires |vec| > 0
  {
    forall m: nat :: m < n ==> !StopsAt(h, key, vec[Probe(h, key, |vec|, m)])
  }

  /** The first deleted slot among the first n probes; None says that there is none. */
  ghost predicate Tombstone<T>(h: Hashing<T>, vec: seq<Cell<T>>, key: T, n: nat, slot: Option<nat>)
    requires |vec| > 0
  {
    match slot
    case None => AllLive(h, vec, key, n)
    case Some(j) =>
      j < |vec| && vec[j] == Deleted &&
      exists d: nat :: d < n && Probe(h, key, |vec|, d) == j && AllLive(h, vec, key, d)
  }

  /** The loop passes one more slot. */
  lemma TombstoneStep<T>(h: Hashing<T>, vec: seq<Cell<T>>, key: T, n: nat, slot: Option<nat>)
    requires |vec| > 0 && Tombstone(h, vec, key, n, slot) && vec[Probe(h, key, |vec|, n)] != Null
    ensures vec[Probe(h, key, |vec|, n)].Live? || slot.Some? ==> Tombstone(h, vec, key, n + 1, slot)
    ensures vec[Probe(h, key, |vec|, n)] == Deleted && slot.None? ==>
      Tombstone(h, vec, key, n + 1, Some(Probe(h, key, |vec|, n)))
  {
  }

  lemma PassOne<T>(h: Hashing<T>, vec: seq<Cell<T>>, key: T, n: nat, stop: nat)
    requires |vec| > 0 && Passed(h, vec, key, n) && !StopsAt(h, key, vec[Probe(h, key, |vec|, n)])
    requires n <= stop && StopsAt(h, key, vec[Probe(h, key, |vec|, stop)])
    ensures Passed(h, vec, key, n + 1) && n + 1 <= stop
  {
  }

  lemma NextProbe<T>(h: Hashing<T>, key: T, size: nat, n: nat)
    requires size > 0
    ensures Probe(h, key, size, n + 1) == Mask((Probe(h, key, size, n) + Odd(h.hash2(key))) % UINT, size)
  {
  }

  /** The loop stops at a null slot: the key is absent, and the first tombstone may be reused. */
  lemma StopAtNull<T(!new)>(h: Hashing<T>, vec: seq<Cell<T>>, logSize: nat, key: T, n: nat, tombstone: Option<nat>,
        slot: nat)
    requires Layout(h, vec, logSize) && Passed(h, vec, key, n) && Tombstone(h, vec, key, n, tombstone)
    requires vec[Probe(h, key, |vec|, n)] == Null
    requires slot == if tombstone.Some? then tombstone.value else Probe(h, key, |vec|, n)
    ensures FoundFor(h, vec, key, slot) && FirstVacant(h, vec, key, slot)
  {
    NoMatchBeforeNull(h, vec, logSize, key, n);
    if tombstone.Some? {
      var d: nat :| d < n && Probe(h, key, |vec|, d) == slot && AllLive(h, vec, key, d);
      assert Unbroken(h, vec, key, d);
    } else {
      assert Unbroken(h, vec, key, n);
    }
  }

  lemma StopAtMatch<T(!new)>(h: Hashing<T>, vec: seq<Cell<T>>, key: T, n: nat)
    requires |vec| > 0 && Respects(h) && Passed(h, vec, key, n)
    requires vec[Probe(h, key, |vec|, n)].Live?
    requires key == vec[Probe(h, key, |vec|, n)].item || h.same(key, vec[Probe(h, key, |vec|, n)].item)
    ensures FoundFor(h, vec, key, Probe(h, key, |vec|, n))
  {
    assert Unbroken(h, vec, key, n);
  }

  // ---- counting ----

  lemma NullExists<T>(vec: seq<Cell<T>>)
    requires Nulls(vec) > 0
    ensures Null in vec
  {}

  /** More nulls than slots out of reach: one is in reach. */
  lemma ReachableNull<T>(vec: seq<Cell<T>>)
    requires Nulls(vec) > 0 && (|vec| > UINT ==> Nulls(vec) > |vec| - UINT)
    ensures NullInReach(vec)
  {
    if |vec| > UINT {
      assert vec == vec[..UINT] + vec[UINT..];
      NullsAtMost(vec[UINT..]);
      NullExists(vec[..UINT]);
      var j :| 0 <= j < UINT && vec[..UINT][j] == Null;
    } else {
      NullExists(vec);
    }
  }

  lemma {:induction false} NullsAtMost<T>(vec: seq<Cell<T>>)
    ensures Nulls(vec) <= |vec|
  {
    if |vec| > 0 {
      var n := |vec| - 1;
      NullsAtMost(vec[..n]);
      assert vec == vec[..n] + [vec[n]];
    }
  }

  /** All slots out of reach are null. */
  lemma NullsBeyond<T>(vec: seq<Cell<T>>)
    requires Beyond(vec)
    ensures Nulls(vec) >= |vec| - UINT
  {
    if |vec| > UINT {
      NullsOfEmpty(vec[UINT..]);
      assert vec == vec[..UINT] + vec[UINT..];
    }
  }

  /** Items and null slots do not overlap. */
  lemma {:induction false} ItemsAndNulls<T>(vec: seq<Cell<T>>)
    ensures |Items(vec)| + Nulls(vec) <= |vec|
  {
    if |vec| > 0 {
      var n := |vec| - 1;
      ItemsAndNulls(vec[..n]);
      ItemsOfPrefix(vec, n);
      assert vec[..n + 1] == vec && vec == vec[..n] + [vec[n]];
    }
  }

  lemma NullsOfUpdate<T>(vec: seq<Cell<T>>, slot: nat, cell: Cell<T>)
    requires slot < |vec| && cell != Null
    ensures Nulls(vec[slot := cell]) == Nulls(vec) - (if vec[slot] == Null then 1 else 0)
  {
    assert multiset(vec[slot := cell]) == multiset(vec) - multiset{vec[slot]} + multiset{cell};
  }

  lemma {:induction false} NullsOfEmpty<T>(vec: seq<Cell<T>>)
    requires forall j :: 0 <= j < |vec| ==> vec[j] == Null
    ensures Nulls(vec) == |vec|
    ensures Items(vec) == {}
  {
    if |vec| > 0 {
      var n := |vec| - 1;
      NullsOfEmpty(vec[..n]);
      assert vec == vec[..n] + [Null];
    }
  }

  lemma ItemsOfPrefix<T>(vec: seq<Cell<T>>, i: nat)
    requires i < |vec|
    ensures Items(vec[..i + 1]) == Items(vec[..i]) + (if vec[i].Live? then {vec[i].item} else {})
  {
    var p, q := vec[..i], vec[..i + 1];
    forall x ensures x in Items(q) <==> x in Items(p) || (vec[i].Live? && x == vec[i].item) {
      if x in Items(q) {
        var j :| 0 <= j < |q| && q[j].Live? && q[j].item == x;
        if j < i { assert p[j] == q[j]; }
      }
      if x in Items(p) {
        var j :| 0 <= j < |p| && p[j].Live? && p[j].item == x;
        assert q[j] == p[j];
      }
      if vec[i].Live? { assert q[i].item in Items(q); }
    }
  }

  /** An item is not among the items before it. */
  lemma NewInPrefix<T(!new)>(h: Hashing<T>, vec: seq<Cell<T>>, i: nat)
    requires Respects(h) && Unique(h, vec) && i < |vec| && vec[i].Live?
    ensures forall x :: x in Items(vec[..i]) ==> !h.same(vec[i].item, x)
    ensures vec[i].item !in Items(vec[..i])
  {
    forall x | x in Items(vec[..i]) ensures !h.same(vec[i].item, x) {
      var j :| 0 <= j < i && vec[..i][j].Live? && vec[..i][j].item == x;
      assert vec[j].item == x;
    }
  }

  lemma WithoutNothing<T>(h: Hashing<T>, items: set<T>, key: T)
    requires forall x :: x in items ==> !h.same(key, x)
    ensures Without(h, items, key) == items
  {}

  // ---- the table ----

  /**
   * The size hash_init picks: the least power of two above the requested capacity, or nothing if that
   * has no 64 bits.
   */
  method TableSize(hint: nat) returns (size: nat, ghost logSize: nat)
    requires hint < Pow(2, 64)
    ensures hint < Pow(2, 63) ==> size / 2 <= hint < size == Pow(2, logSize)
    ensures hint >= Pow(2, 63) ==> size == 0
    ensures 8 <= hint < Pow(2, 63) ==> size >= 16
    ensures hint < UINT ==> size <= UINT
  {
    UintIsPow();
    PowStrict(2, 32, 63);
    logSize := RoundUp.RoundUp2Correct(hint);
    if hint < UINT && logSize > 32 { PowMonotone(2, 32, logSize - 1); assert false; }
    if hint < UINT { PowMonotone(2, logSize, 32); }
    if hint >= 8 && logSize <= 3 { PowMonotone(2, logSize, 3); assert false; }
    if hint >= 8 { PowMonotone(2, 4, logSize); }
    size := RoundUp.RoundUp2(hint);
  }

  /** The probe loop of hash_find_slot. */
  method Search<T(==,!new)>(h: Hashing<T>, vec: seq<Cell<T>>, ghost logSize: nat, key: T) returns (slot: nat)
    requires Layout(h, vec, logSize) && Terminates(h, vec, key)
    ensures slot < |vec| && FoundFor(h, vec, key, slot)
    ensures !vec[slot].Live? ==> FirstVacant(h, vec, key, slot)
  {
    ghost var stop: nat :| StopsAt(h, key, vec[Probe(h, key, |vec|, stop)]);
    ghost var n: nat := 0;
    var deletedSlot: Option<nat> := None;
    var hash2: nat := 0;
    var hash1: nat := h.hash1(key) % UINT;
    while true
      invariant n <= stop
      invariant Mask(hash1, |vec|) == Probe(h, key, |vec|, n)
      invariant Passed(h, vec, key, n)
      invariant hash2 == 0 || hash2 == Odd(h.hash2(key))
      invariant Tombstone(h, vec, key, n, deletedSlot)
      decreases stop - n
    {
      hash1 := Mask(hash1, |vec|);
      slot := hash1;
      if vec[slot] == Null {
        if deletedSlot.Some? { slot := deletedSlot.value; }
        StopAtNull(h, vec, logSize, key, n, deletedSlot, slot);
        return;
      }
      TombstoneStep(h, vec, key, n, deletedSlot);
      if vec[slot] == Deleted {
        if deletedSlot.None? { deletedSlot := Some(slot); }
      } else if key == vec[slot].item || h.same(key, vec[slot].item) {
        StopAtMatch(h, vec, key, n);
        return;
      }
      PassOne(h, vec, key, n, stop);
      NextProbe(h, key, |vec|, n);
      if hash2 == 0 { hash2 := Odd(h.hash2(key)); }
      hash1 := (hash1 + hash2) % UINT;
      n := n + 1;
    }
  }

  class Table<T(==,!new)> {
    const hashing: Hashing<T>
    var vec: array<Cell<T>>
    var size: nat
    var capacity: nat
    var fill: nat
    var emptySlots: nat
    ghost const hint: nat
    ghost var logSize: nat
    ghost var inserts: nat

    /** The vector is a well-laid power-of-two table. */
    ghost predicate LaidOut()
      reads this, vec
    {
      && Layout(hashing, vec[..], logSize)
      && size == vec.Length
      && capacity == size - size / 16
    }

    /** The whole-run invariant. */
    ghost predicate Valid()
      reads this, vec
    {
      && LaidOut()
      && fill == |Items(vec[..])|
      && emptySlots == Nulls(vec[..])
      && fill <= inserts
      && (size >= 16 ==> emptySlots >= size / 16)
      && (size < 16 ==> hint < size)
      && (size < 16 || size > UINT ==> emptySlots + inserts >= size)
    }

    ghost function Contents(): set<T>
      reads this, vec
    {
      Items(vec[..])
    }

    /** hash_init */
    constructor (h: Hashing<T>, hint: nat)
      requires Respects(h) && hint < Pow(2, 63)
      ensures Valid() && fresh(vec) && hashing == h
      ensures Contents() == {} && inserts == 0 && this.hint == hint
      ensures forall j :: 0 <= j < |vec[..]| ==> vec[..][j] == Null
      ensures size / 2 <= hint < size == Pow(2, logSize)
      ensures (hint >= 8 ==> size >= 16) && (hint < UINT ==> size <= UINT)
    {
      PowStrict(2, 63, 64);
      hashing := h;
      this.hint := hint;
      inserts := 0;
      var s, len := TableSize(hint);
      var cells := new Cell<T>[s](_ => Null);
      NullsOfEmpty(cells[..]);
      vec := cells;
      size := s;
      logSize := len;
      emptySlots := s;
      capacity := s - s / 16;
      fill := 0;
    }

    /** hash_find_slot */
    method FindSlot(key: T) returns (slot: nat)
      requires LaidOut() && Terminates(hashing, vec[..], key)
      ensures slot < vec.Length && FoundFor(hashing, vec[..], key, slot)
      ensures !vec[slot].Live? ==> FirstVacant(hashing, vec[..], key, slot)
    {
      slot := Search(hashing, vec[..], logSize, key);
    }

    /** hash_find_item */
    method FindItem(key: T) returns (r: Option<T>)
      requires LaidOut() && Terminates(hashing, vec[..], key)
      ensures r.Some? ==> r.value in Contents() && hashing.same(key, r.value)
      ensures r.None? ==> forall x :: x in Contents() ==> !hashing.same(key, x)
    {
      var slot := FindSlot(key);
      r := if vec[slot].Live? then Some(vec[slot].item) else None;
    }

    /**
     * A slot in reach stays null: always in tables of 16 to 2^32 slots, in smaller ones up to
     * `hint` inserts, in larger ones up to 2^32 - 1 inserts.
     */
    ghost predicate RoomLeft()
      reads this
    {
      (size < 16 ==> inserts <= hint) && (size > UINT ==> inserts < UINT)
    }

    lemma LookupTerminates(key: T)
      requires Valid() && RoomLeft()
      ensures NullInReach(vec[..]) && Terminates(hashing, vec[..], key)
    {
      ReachableNull(vec[..]);
      TerminatesIff(hashing, vec[..], logSize, key);
    }

    /** The body of the rehash loop: a new item goes to a null slot of the new vector. */
    method Reinsert(item: T)
      requires LaidOut() && Deleted !in vec[..] && Nulls(vec[..]) > 0 && Nulls(vec[..]) > size - UINT
      requires forall x :: x in Contents() ==> !hashing.same(item, x)
      modifies vec
      ensures LaidOut() && Deleted !in vec[..]
      ensures Contents() == old(Contents()) + {item}
      ensures Nulls(vec[..]) == old(Nulls(vec[..])) - 1
    {
      ghost var v := vec[..];
      ReachableNull(v);
      TerminatesIff(hashing, v, logSize, item);
      var slot := FindSlot(item);
      NotLive(hashing, v, item, slot);
      StoreKeepsLayout(hashing, v, logSize, slot, item);
      NullsOfUpdate(v, slot, Live(item));
      WithoutNothing(hashing, Items(v), item);
      vec[slot] := Live(item);
      assert vec[..] == v[slot := Live(item)];
    }

    /** hash_rehash: same size or double, nothing lost, tombstones gone. */
    method Rehash()
      requires LaidOut() && fill == |Contents()| && 16 <= size <= UINT && fill < UINT
      modifies this
      ensures LaidOut() && fresh(vec)
      ensures Contents() == old(Contents()) && fill == old(fill)
      ensures logSize == old(logSize) + (if old(fill >= capacity) then 1 else 0)
      ensures size == if old(fill >= capacity) then 2 * old(size) else old(size)
      ensures Deleted !in vec[..]
      ensures emptySlots == Nulls(vec[..]) == size - fill
      ensures emptySlots >= size / 16 && size >= old(size)
      ensures inserts == old(inserts)
    {
      var oldVec := vec;
      ItemsAndNulls(vec[..]);
      NewVector();
      Refill(oldVec);
      emptySlots := size - fill;
      assert oldVec[..] == old(vec[..]);
    }

    /** The first half of hash_rehash: double if the table is full, then a null vector. */
    method NewVector()
      requires LaidOut()
      modifies this
      ensures LaidOut() && fresh(vec)
      ensures Deleted !in vec[..] && Contents() == {} && Nulls(vec[..]) == size
      ensures fill == old(fill) && inserts == old(inserts)
      ensures logSize == old(logSize) + (if old(fill >= capacity) then 1 else 0)
      ensures size == if old(fill >= capacity) then 2 * old(size) else old(size)
    {
      if fill >= capacity {
        size := size * 2;
        capacity := size - size / 16;
        logSize := logSize + 1;
      }
      vec := new Cell<T>[size](_ => Null);
      NullsOfEmpty(vec[..]);
    }

    /** The loop of hash_rehash over the old vector. */
    method Refill(oldVec: array<Cell<T>>)
      requires LaidOut() && Deleted !in vec[..] && Contents() == {} && Nulls(vec[..]) == size
      requires oldVec != vec && Unique(hashing, oldVec[..])
      requires |Items(oldVec[..])| < size && |Items(oldVec[..])| < UINT
      modifies vec
      ensures LaidOut() && Deleted !in vec[..]
      ensures Contents() == Items(oldVec[..]) && |Contents()| <= oldVec.Length
      ensures Nulls(vec[..]) == size - |Contents()|
    {
      ghost var ov := oldVec[..];
      var i := 0;
      while i < oldVec.Length
        invariant 0 <= i <= oldVec.Length
        invariant LaidOut() && Deleted !in vec[..]
        invariant Contents() == Items(ov[..i]) && |Contents()| <= i
        invariant Nulls(vec[..]) == size - |Contents()|
      {
        ItemsOfPrefix(ov, i);
        if oldVec[i].Live? {
          NewInPrefix(hashing, ov, i);
          PrefixSize(ov, i);
          Reinsert(oldVec[i].item);
        }
        i := i + 1;
      }
      assert ov[..i] == ov;
    }

    /** hash_insert_at: store, then rehash when too few null slots are left. */
    method InsertAt(item: T, slot: nat) returns (result: nat)
      requires Valid() && slot < vec.Length && FoundFor(hashing, vec[..], item, slot)
      modifies this, vec
      ensures Valid() && (vec == old(vec) || fresh(vec))
      ensures Contents() == Without(hashing, old(Contents()), item) + {item}
      ensures result < vec.Length && vec[result] == Live(item)
      ensures old(size) > UINT ==> vec == old(vec) && vec[..] == old(vec[..])[slot := Live(item)]
      ensures inserts == old(inserts) + 1
      ensures old(size) < 16 ==> size == old(size)
      ensures size >= old(size)
      ensures old(size <= UINT && fill + 1 < MAX_ITEMS) ==> size <= UINT
    {
      StoreAndCheck(item, slot);
      if emptySlots < size - capacity {
        result := RehashAndFind(item);
      } else {
        result := slot;
      }
    }

    /** Store; a rehash is due only in a table of 16 to 2^32 slots that has a slot left, else all is well already. */
    method StoreAndCheck(item: T, slot: nat)
      requires Valid() && slot < vec.Length && FoundFor(hashing, vec[..], item, slot)
      modifies vec, `fill, `emptySlots, `inserts
      ensures LaidOut() && fill == |Contents()| <= inserts
      ensures Contents() == Without(hashing, old(Contents()), item) + {item}
      ensures vec[..] == old(vec[..])[slot := Live(item)] && inserts == old(inserts) + 1
      ensures emptySlots < size - capacity ==> 16 <= size <= UINT && fill < UINT
      ensures emptySlots >= size - capacity ==> Valid()
      ensures size == UINT && old(fill) + 1 < MAX_ITEMS ==> fill < capacity
      ensures size < UINT ==> 2 * size <= UINT
    {
      ghost var before := emptySlots;
      StoreAt(item, slot);
      NullsBeyond(vec[..]);
      ItemsAndNulls(vec[..]);
      SizeSteps(logSize);
      Crowded(size, before, emptySlots, fill);
    }

    /** The store of hash_insert_at and its counters. */
    method StoreAt(item: T, slot: nat)
      requires LaidOut() && fill == |Contents()| && emptySlots == Nulls(vec[..])
      requires slot < vec.Length && FoundFor(hashing, vec[..], item, slot)
      modifies vec, `fill, `emptySlots, `inserts
      ensures LaidOut() && fill == |Contents()| <= old(fill) + 1
      ensures old(emptySlots) - 1 <= emptySlots == Nulls(vec[..])
      ensures Contents() == Without(hashing, old(Contents()), item) + {item}
      ensures vec[..] == old(vec[..])[slot := Live(item)] && inserts == old(inserts) + 1
    {
      if vec[slot] == Null || vec[slot] == Deleted {
        fill := fill + 1;
        if vec[slot] == Null { emptySlots := emptySlots - 1; }
      }
      inserts := inserts + 1;
      Put(item, slot);
    }

    method Put(item: T, slot: nat)
      requires LaidOut() && slot < vec.Length && FoundFor(hashing, vec[..], item, slot)
      modifies vec
      ensures LaidOut() && vec[..] == old(vec[..])[slot := Live(item)]
      ensures Contents() == Without(hashing, old(Contents()), item) + {item}
      ensures |Contents()| == |old(Contents())| + (if old(vec[slot].Live?) then 0 else 1)
      ensures Nulls(vec[..]) == old(Nulls(vec[..])) - (if old(vec[slot] == Null) then 1 else 0)
    {
      ghost var v := vec[..];
      vec[slot] := Live(item);
      assert vec[..] == v[slot := Live(item)];
      StoreEffects(hashing, v, logSize, slot, item);
    }

    method RehashAndFind(item: T) returns (result: nat)
      requires LaidOut() && fill == |Contents()| <= inserts && 16 <= size <= UINT && fill < UINT
      requires item in Contents()
      modifies this
      ensures Valid() && fresh(vec)
      ensures size == if old(fill >= capacity) then 2 * old(size) else old(size)
      ensures Contents() == old(Contents()) && inserts == old(inserts)
      ensures size >= old(size)
      ensures result < vec.Length && vec[result] == Live(item)
    {
      Rehash();
      TerminatesIff(hashing, vec[..], logSize, item);
      result := FindSlot(item);
      FoundIsStored(hashing, vec[..], item, result);
    }

    /** hash_insert: returns what was stored under an equal key before. */
    method Insert(item: T) returns (r: Option<T>)
      requires Valid() && Terminates(hashing, vec[..], item)
      modifies this, vec
      ensures Valid() && (vec == old(vec) || fresh(vec))
      ensures Contents() == Without(hashing, old(Contents()), item) + {item}
      ensures r.Some? ==> r.value in old(Contents()) && hashing.same(item, r.value)
      ensures r.None? ==> forall x :: x in old(Contents()) ==> !hashing.same(item, x)
      ensures inserts == old(inserts) + 1
      ensures old(size) < 16 ==> size == old(size)
      ensures size >= old(size)
      ensures old(size <= UINT && fill + 1 < MAX_ITEMS) ==> size <= UINT
    {
      var slot := FindSlot(item);
      var oldItem := vec[slot];
      var _ := InsertAt(item, slot);
      r := if oldItem.Live? then Some(oldItem.item) else None;
    }

    /** hash_delete */
    method Delete(key: T) returns (r: Option<T>)
      requires Valid() && Terminates(hashing, vec[..], key)
      modifies this, vec
      ensures Valid() && vec == old(vec)
      ensures Contents() == Without(hashing, old(Contents()), key)
      ensures r.Some? ==> r.value in old(Contents()) && hashing.same(key, r.value)
      ensures r.None? ==> forall x :: x in old(Contents()) ==> !hashing.same(key, x)
      ensures inserts == old(inserts) && size == old(size)
    {
      var slot := FindSlot(key);
      r := None;
      if vec[slot].Live? {
        r := Some(vec[slot].item);
        assert vec[..][slot].item in Items(vec[..]);
        DeleteAt(slot, key);
      } else {
        WithoutNothing(hashing, Contents(), key);
      }
    }

    /** hash_delete_at: leaves a tombstone. */
    method DeleteAt(slot: nat, ghost key: T)
      requires Valid() && slot < vec.Length && vec[slot].Live? && hashing.same(key, vec[slot].item)
      modifies this`fill, vec
      ensures Valid() && Contents() == Without(hashing, old(Contents()), key)
      ensures vec[..] == old(vec[..])[slot := Deleted]
    {
      ghost var v := vec[..];
      DeleteKeepsLayout(hashing, v, logSize, slot, key);
      NullsOfUpdate(v, slot, Deleted);
      vec[slot] := Deleted;
      assert vec[..] == v[slot := Deleted];
      fill := fill - 1;
    }
  }

  lemma NotLive<T>(h: Hashing<T>, vec: seq<Cell<T>>, key: T, slot: nat)
    requires slot < |vec| && FoundFor(h, vec, key, slot) && Deleted !in vec
    requires forall x :: x in Items(vec) ==> !h.same(key, x)
    ensures vec[slot] == Null
  {
    assert vec[slot].Live? ==> vec[slot].item in Items(vec);
  }

  lemma StoreEffects<T(!new)>(h: Hashing<T>, vec: seq<Cell<T>>, logSize: nat, slot: nat, item: T)
    requires Layout(h, vec, logSize) && slot < |vec| && FoundFor(h, vec, item, slot)
    ensures Layout(h, vec[slot := Live(item)], logSize)
    ensures Items(vec[slot := Live(item)]) == Without(h, Items(vec), item) + {item}
    ensures |Items(vec[slot := Live(item)])| == |Items(vec)| + (if vec[slot].Live? then 0 else 1)
    ensures Nulls(vec[slot := Live(item)]) == Nulls(vec) - (if vec[slot] == Null then 1 else 0)
  {
    StoreKeepsLayout(h, vec, logSize, slot, item);
    NullsOfUpdate(vec, slot, Live(item));
    StoreCount(h, vec, slot, item);
  }

  /** Storing adds one item exactly when the slot was vacant. */
  lemma StoreCount<T(!new)>(h: Hashing<T>, vec: seq<Cell<T>>, slot: nat, item: T)
    requires Respects(h) && slot < |vec| && Unique(h, vec) && FoundFor(h, vec, item, slot)
    ensures |Without(h, Items(vec), item) + {item}| == |Items(vec)| + (if vec[slot].Live? then 0 else 1)
  {
    if vec[slot].Live? {
      WithoutOne(h, vec, slot, item);
    } else {
      WithoutNothing(h, Items(vec), item);
    }
  }

  lemma WithoutOne<T(!new)>(h: Hashing<T>, vec: seq<Cell<T>>, slot: nat, item: T)
    requires Respects(h) && slot < |vec| && Unique(h, vec)
    requires vec[slot].Live? && h.same(item, vec[slot].item)
    ensures vec[slot].item in Items(vec)
    ensures Without(h, Items(vec), item) == Items(vec) - {vec[slot].item}
  {
    var was := vec[slot].item;
    forall x | x in Items(vec) && x != was ensures !h.same(item, x) {
      var j :| 0 <= j < |vec| && vec[j].Live? && vec[j].item == x;
      Apart(h, item, was, x);
    }
  }

  /** Counting up to an item that is not repeated before it falls short of the whole count. */
  lemma PrefixSize<T>(vec: seq<Cell<T>>, i: nat)
    requires i < |vec| && vec[i].Live? && vec[i].item !in Items(vec[..i])
    ensures |Items(vec[..i])| + 1 <= |Items(vec)|
  {
    var part, all := Items(vec[..i]), Items(vec);
    forall x | x in part ensures x in all {
      var j :| 0 <= j < i && vec[..i][j].Live? && vec[..i][j].item == x;
      assert vec[j].item == x;
    }
    assert vec[i].item in all;
    SetMonotone(part + {vec[i].item}, all);
  }

  lemma SetMonotone<T>(a: set<T>, b: set<T>)
    requires a <= b
    ensures |a| <= |b|
  {
    assert b == a + (b - a);
  }

  lemma FoundIsStored<T(!new)>(h: Hashing<T>, vec: seq<Cell<T>>, item: T, slot: nat)
    requires Respects(h) && Unique(h, vec) && slot < |vec| && FoundFor(h, vec, item, slot)
    requires item in Items(vec)
    ensures vec[slot] == Live(item)
  {
    var j :| 0 <= j < |vec| && vec[j].Live? && vec[j].item == item;
    if vec[slot].Live? {
      assert h.same(vec[slot].item, item);
    }
  }

  /** Below this many items a table of up to 2^32 slots is not doubled beyond them. */
  const MAX_ITEMS := 0xF000_0000

  /** When a rehash is due: the table has 16 to 2^32 slots, and an item of a larger table would still be in reach. */
  lemma Crowded(size: nat, before: nat, emptySlots: nat, fill: nat)
    requires size > UINT ==> size >= 2 * UINT
    requires emptySlots >= size - UINT && emptySlots + 1 >= before && fill + emptySlots <= size
    requires size >= 16 ==> before >= size / 16
    ensures emptySlots < size / 16 ==> 16 <= size <= UINT && fill < UINT
    ensures size == UINT && fill < MAX_ITEMS ==> fill < size - size / 16
    ensures emptySlots >= size / 16 || size <= UINT
  {
  }

  /** A table of more than 2^32 slots has at least twice as many, and one of fewer at most half as many. */
  lemma SizeSteps(logSize: nat)
    ensures Pow(2, logSize) > UINT ==> Pow(2, logSize) >= 2 * UINT
    ensures Pow(2, logSize) < UINT ==> 2 * Pow(2, logSize) <= UINT
  {
    UintIsPow();
    if logSize < 32 {
      PowMonotone(2, logSize + 1, 32);
    } else if logSize > 32 {
      PowMonotone(2, 33, logSize);
    }
  }
}
