/** Whole runs of a hash table, from hash_init on, against the history of the calls. */
module HashTableRuns {

  import opened Powers
  import opened Probing
  import opened HashTable
  import opened Wrappers

  datatype Op<T> = Find(key: T) | Store(key: T) | Remove(key: T)

  /** The item most recently stored under an equal key and not removed since. */
  function LastStored<T>(h: Hashing<T>, ops: seq<Op<T>>, key: T): Option<T> {
    if ops == [] then None
    else
      var last := ops[|ops| - 1];
      if last.Find? || !h.same(key, last.key) then LastStored(h, ops[..|ops| - 1], key)
      else if last.Store? then Some(last.key)
      else None
  }

  /** The answer the i-th operation of a run owes its caller. */
  function Expected<T>(h: Hashing<T>, ops: seq<Op<T>>, i: nat): Option<T>
    requires i < |ops|
  {
    LastStored(h, ops[..i], ops[i].key)
  }

  function Stores<T>(ops: seq<Op<T>>): nat {
    if ops == [] then 0
    else Stores(ops[..|ops| - 1]) + if ops[|ops| - 1].Store? then 1 else 0
  }

  lemma {:induction false} LastStoredSame<T(!new)>(h: Hashing<T>, ops: seq<Op<T>>, x: T, y: T)
    requires Respects(h) && h.same(x, y)
    ensures LastStored(h, ops, x) == LastStored(h, ops, y)
    ensures LastStored(h, ops, x).Some? ==> h.same(x, LastStored(h, ops, x).value)
  {
    if ops != [] { LastStoredSame(h, ops[..|ops| - 1], x, y); }
  }

  lemma {:induction false} StoresMonotone<T>(ops: seq<Op<T>>, i: nat)
    requires i <= |ops|
    ensures Stores(ops[..i]) <= Stores(ops)
  {
    if i == |ops| {
      assert ops[..i] == ops;
    } else {
      StoresMonotone(ops[..|ops| - 1], i);
      assert ops[..|ops| - 1][..i] == ops[..i];
    }
  }

  /** The set of items is the one the history prescribes. */
  ghost predicate Tracks<T(!new)>(h: Hashing<T>, items: set<T>, ops: seq<Op<T>>) {
    forall x: T :: x in items <==> LastStored(h, ops, x) == Some(x)
  }

  ghost predicate Answers<T>(h: Hashing<T>, items: set<T>, key: T, r: Option<T>) {
    && (r.Some? ==> r.value in items && h.same(key, r.value))
    && (r.None? ==> forall x :: x in items ==> !h.same(key, x))
  }

  /** What a table operation answers is what the history says was last stored. */
  lemma AnswerIsLastStored<T(!new)>(h: Hashing<T>, items: set<T>, ops: seq<Op<T>>, key: T, r: Option<T>)
    requires Respects(h) && Tracks(h, items, ops) && Answers(h, items, key, r)
    ensures r == LastStored(h, ops, key)
  {
    if r.Some? {
      LastStoredSame(h, ops, key, r.value);
    } else {
      LastStoredSame(h, ops, key, key);
      var l := LastStored(h, ops, key);
      if l.Some? { LastStoredSame(h, ops, key, l.value); }
    }
  }

  /** The items after one more operation. */
  ghost function After<T>(h: Hashing<T>, items: set<T>, op: Op<T>): set<T> {
    match op
    case Find(_) => items
    case Store(x) => Without(h, items, x) + {x}
    case Remove(x) => Without(h, items, x)
  }

  /** The items in the table when the first n operations have been done. */
  ghost function Live<T>(h: Hashing<T>, ops: seq<Op<T>>, n: nat): set<T>
    requires n <= |ops|
  {
    if n == 0 then {} else After(h, Live(h, ops, n - 1), ops[n - 1])
  }

  lemma TracksStep<T(!new)>(h: Hashing<T>, items: set<T>, ops: seq<Op<T>>, op: Op<T>)
    requires Respects(h) && Tracks(h, items, ops)
    ensures Tracks(h, After(h, items, op), ops + [op])
    ensures |After(h, items, op)| <= |items| + 1
  {
    assert (ops + [op])[..|ops|] == ops;
    forall x: T ensures x in After(h, items, op) <==> LastStored(h, ops + [op], x) == Some(x) {
      assert h.same(op.key, x) <==> h.same(x, op.key);
    }
    assert After(h, items, op) <= items + {op.key};
    SetMonotone(After(h, items, op), items + {op.key});
  }

  lemma Extend<T>(ops: seq<Op<T>>, i: nat)
    requires i < |ops|
    ensures ops[..i + 1] == ops[..i] + [ops[i]]
    ensures Stores(ops[..i + 1]) == Stores(ops[..i]) + if ops[i].Store? then 1 else 0
  {
    assert ops[..i + 1][..i] == ops[..i];
  }

  /** One operation on a table with a null slot left. */
  method Apply<T(==,!new)>(t: Table<T>, op: Op<T>) returns (r: Option<T>)
    requires t.Valid() && t.RoomLeft()
    modifies t, t.vec
    ensures t.Valid() && (t.vec == old(t.vec) || fresh(t.vec))
    ensures Answers(t.hashing, old(t.Contents()), op.key, r)
    ensures t.Contents() == After(t.hashing, old(t.Contents()), op)
    ensures t.inserts == old(t.inserts) + if op.Store? then 1 else 0
    ensures old(t.size) >= 16 ==> t.size >= 16
    ensures old(t.size <= UINT && t.fill + 1 < MAX_ITEMS) ==> t.size <= UINT
  {
    t.LookupTerminates(op.key);
    match op {
      case Find(key) => r := t.FindItem(key);
      case Store(key) => r := t.Insert(key);
      case Remove(key) => r := t.Delete(key);
    }
  }

  /** The i-th operation of a run answers from the history and extends it. */
  method Step<T(==,!new)>(t: Table<T>, ops: seq<Op<T>>, i: nat) returns (r: Option<T>)
    requires i < |ops| && t.Valid() && t.RoomLeft()
    requires t.inserts == Stores(ops[..i]) && Tracks(t.hashing, t.Contents(), ops[..i])
    modifies t, t.vec
    ensures t.Valid() && (t.vec == old(t.vec) || fresh(t.vec))
    ensures t.inserts == Stores(ops[..i + 1]) && Tracks(t.hashing, t.Contents(), ops[..i + 1])
    ensures t.Contents() == After(t.hashing, old(t.Contents()), ops[i])
    ensures old(t.size) >= 16 ==> t.size >= 16
    ensures old(t.size <= UINT && t.fill + 1 < MAX_ITEMS) ==> t.size <= UINT
    ensures r == Expected(t.hashing, ops, i)
  {
    ghost var items := t.Contents();
    r := Apply(t, ops[i]);
    AnswerIsLastStored(t.hashing, items, ops[..i], ops[i].key, r);
    TracksStep(t.hashing, items, ops[..i], ops[i]);
    Extend(ops, i);
  }

  /** The table stays within what a 32-bit index can name. */
  ghost predicate InReach<T>(h: Hashing<T>, hint: nat, ops: seq<Op<T>>) {
    hint < UINT && forall i :: 0 <= i < |ops| ==> |Live(h, ops, i)| + 1 < MAX_ITEMS
  }

  /**
   * After any sequence of operations on a freshly initialised table, every call answers
   * with exactly the item last stored under an equal key. Every lookup on the way
   * terminates: without condition when 8 or more items were announced to hash_init (the
   * table then has 16 slots or more), and otherwise when no more are inserted than announced.
   * A table that outgrows 2^32 slots has room for 2^32 - 1 inserts.
   */
  method Run<T(==,!new)>(h: Hashing<T>, hint: nat, ops: seq<Op<T>>) returns (answers: seq<Option<T>>)
    requires Respects(h) && hint < Pow(2, 63)
    requires hint >= 8 || Stores(ops) <= hint
    requires InReach(h, hint, ops) || Stores(ops) < UINT
    ensures |answers| == |ops|
    ensures forall i :: 0 <= i < |ops| ==> answers[i] == Expected(h, ops, i)
  {
    var t := new Table(h, hint);
    answers := [];
    var i := 0;
    while i < |ops|
      invariant 0 <= i <= |ops|
      invariant t.Valid() && t.hashing == h && t.hint == hint && fresh(t) && fresh(t.vec)
      invariant t.inserts == Stores(ops[..i]) && t.Contents() == Live(h, ops, i)
      invariant t.size >= 16 || Stores(ops) <= hint
      invariant t.size <= UINT || Stores(ops) < UINT
      invariant Tracks(h, t.Contents(), ops[..i])
      invariant |answers| == i
      invariant forall j :: 0 <= j < i ==> answers[j] == Expected(h, ops, j)
    {
      assert t.RoomLeft() by { StoresMonotone(ops, i); }
      var r := Step(t, ops, i);
      answers := answers + [r];
      i := i + 1;
    }
  }

  // ---- the bound on inserts in a table of more than 2^32 slots ----

  /** Numbers that are their own hash. */
  function Numbers(): Hashing<nat> {
    Hashing(x => x, x => 0, (x, y) => x == y)
  }

  /** Tombstones in the first n slots, and nothing else. */
  ghost predicate Buried(vec: seq<Cell<nat>>, n: nat) {
    forall j :: 0 <= j < |vec| ==> vec[j] == if j < n then Deleted else Null
  }

  /** The next number goes to the next slot. */
  lemma NextSlot(vec: seq<Cell<nat>>, n: nat, slot: nat)
    requires n < UINT < |vec| && Buried(vec, n) && slot < |vec|
    requires FirstVacant(Numbers(), vec, n, slot)
    ensures slot == n
  {
    SmallMod(n, UINT);
    SmallMod(n, |vec|);
    assert Probe(Numbers(), n, |vec|, 0) == n;
    var m: nat :| Probe(Numbers(), n, |vec|, m) == slot && AllLive(Numbers(), vec, n, m);
  }

  lemma BuriedNext(vec: seq<Cell<nat>>, n: nat, item: nat)
    requires n < |vec| && Buried(vec, n)
    ensures Buried(vec[n := Cell.Live(item)][n := Deleted], n + 1)
  {
  }

  /**
   * The bound is tight: in every table that is created with more than 2^32 slots there is a run
   * of 2^32 inserts and deletes after which the table is empty and no lookup ends.
   */
  method OutOfReach(hint: nat) returns (t: Table<nat>)
    requires UINT <= hint < Pow(2, 63)
    ensures t.Valid() && t.inserts == UINT && t.Contents() == {}
    ensures forall key: nat :: !Terminates(t.hashing, t.vec[..], key)
  {
    t := new Table(Numbers(), hint);
    var n := 0;
    while n < UINT
      invariant 0 <= n <= UINT < t.size && t.Valid() && t.hashing == Numbers() && fresh(t) && fresh(t.vec)
      invariant t.inserts == n && Buried(t.vec[..], n)
    {
      BuryNext(t, n);
      n := n + 1;
    }
    forall key: nat ensures !Terminates(t.hashing, t.vec[..], key) {
      TerminatesIff(t.hashing, t.vec[..], t.logSize, key);
    }
  }

  /** One insert, and the delete of what it has stored. */
  method BuryNext(t: Table<nat>, n: nat)
    requires n < UINT < t.size && t.Valid() && t.hashing == Numbers() && t.inserts == n && Buried(t.vec[..], n)
    modifies t, t.vec
    ensures t.Valid() && t.vec == old(t.vec) && t.size == old(t.size)
    ensures t.inserts == n + 1 && Buried(t.vec[..], n + 1)
  {
    BuriedNext(t.vec[..], n, n);
    var slot := FindNext(t, n);
    var result := t.InsertAt(n, slot);
    t.DeleteAt(slot, n);
  }

  method FindNext(t: Table<nat>, n: nat) returns (slot: nat)
    requires n < UINT < t.size && t.Valid() && t.hashing == Numbers() && t.inserts == n && Buried(t.vec[..], n)
    ensures slot == n < t.vec.Length && FoundFor(t.hashing, t.vec[..], n, slot)
  {
    t.LookupTerminates(n);
    slot := t.FindSlot(n);
    assert !t.vec[..][slot].Live?;
    NextSlot(t.vec[..], n, slot);
  }
}
