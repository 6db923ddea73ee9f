/**
 * The automatic variables $+, $^, $? and $|, as set_file_variables computes them
 * (gnumake/src/commands.c): a hash table of first occurrences, through which order-only
 * prerequisites are upgraded to normal ones.
 */
module AutoVars {

  import opened WordLists

  /** A struct dep; skipped ones take no part in automatic variables. */
  datatype Dep = Dep(name: string, orderOnly: bool, changed: bool, skipped: bool)

  /** No prerequisite before i has the name of prerequisite i. */
  predicate First(deps: seq<Dep>, i: nat)
    requires i < |deps|
  {
    !deps[i].skipped && !Seen(deps, i, deps[i].name)
  }

  /** The name occurs among the first n. */
  predicate Seen(deps: seq<Dep>, n: nat, name: string)
    requires n <= |deps|
  {
    exists j :: 0 <= j < n && !deps[j].skipped && deps[j].name == name
  }

  /** The name occurs as a normal prerequisite among the first n. */
  predicate Normal(deps: seq<Dep>, n: nat, name: string)
    requires n <= |deps|
  {
    exists j :: 0 <= j < n && !deps[j].skipped && deps[j].name == name && !deps[j].orderOnly
  }

  /** The distinct names among the first n that have a normal occurrence, in the order of first occurrence. */
  function Caret(deps: seq<Dep>, n: nat): seq<string>
    requires n <= |deps|
  {
    if n == 0 then []
    else if First(deps, n - 1) && Normal(deps, |deps|, deps[n - 1].name) then Caret(deps, n - 1) + [deps[n - 1].name]
    else Caret(deps, n - 1)
  }

  /** Those with order-only occurrences alone. */
  function Bar(deps: seq<Dep>, n: nat): seq<string>
    requires n <= |deps|
  {
    if n == 0 then []
    else if First(deps, n - 1) && !Normal(deps, |deps|, deps[n - 1].name) then Bar(deps, n - 1) + [deps[n - 1].name]
    else Bar(deps, n - 1)
  }

  /** Those of $^ whose first occurrence is newer than the target. */
  function Qmark(deps: seq<Dep>, n: nat, always: bool): seq<string>
    requires n <= |deps|
  {
    if n == 0 then []
    else if First(deps, n - 1) && Normal(deps, |deps|, deps[n - 1].name) && (deps[n - 1].changed || always)
    then Qmark(deps, n - 1, always) + [deps[n - 1].name]
    else Qmark(deps, n - 1, always)
  }

  /** All normal prerequisites. */
  function Plus(deps: seq<Dep>, n: nat): seq<string>
    requires n <= |deps|
  {
    if n == 0 then []
    else if !deps[n - 1].skipped && !deps[n - 1].orderOnly then Plus(deps, n - 1) + [deps[n - 1].name]
    else Plus(deps, n - 1)
  }

  ghost predicate Distinct(names: seq<string>) {
    forall i, j :: 0 <= i < j < |names| ==> names[i] != names[j]
  }

  /** $^ has exactly the names with a normal occurrence, $| those that occur without one; no name twice. */
  lemma {:induction false} CaretAndBar(deps: seq<Dep>, n: nat)
    requires n <= |deps|
    ensures forall w :: w in Caret(deps, n) <==> Seen(deps, n, w) && Normal(deps, |deps|, w)
    ensures forall w :: w in Bar(deps, n) <==> Seen(deps, n, w) && !Normal(deps, |deps|, w)
    ensures Distinct(Caret(deps, n)) && Distinct(Bar(deps, n))
  {
    if n > 0 {
      CaretAndBar(deps, n - 1);
      var name := deps[n - 1].name;
      forall w ensures Seen(deps, n, w) <==> Seen(deps, n - 1, w) || (First(deps, n - 1) && w == name) {
        SeenStep(deps, n - 1, w);
      }
      if First(deps, n - 1) {
        assert name !in Caret(deps, n - 1) && name !in Bar(deps, n - 1);
      }
    }
  }

  lemma SeenStep(deps: seq<Dep>, n: nat, w: string)
    requires n < |deps|
    ensures Seen(deps, n + 1, w) <==> Seen(deps, n, w) || (First(deps, n) && w == deps[n].name)
  {
    if !deps[n].skipped && w == deps[n].name {
      assert Seen(deps, n + 1, w);
    }
  }

  /** a can be had from b by leaving out elements. */
  predicate Sublist(a: seq<string>, b: seq<string>) {
    if b == [] then a == []
    else (a != [] && a[|a| - 1] == b[|b| - 1] && Sublist(a[..|a| - 1], b[..|b| - 1])) || Sublist(a, b[..|b| - 1])
  }

  /** $? is a sublist of $^, and the whole of it under --always-make. */
  lemma {:induction false} QmarkOfCaret(deps: seq<Dep>, n: nat, always: bool)
    requires n <= |deps|
    ensures Sublist(Qmark(deps, n, always), Caret(deps, n))
    ensures always ==> Qmark(deps, n, always) == Caret(deps, n)
  {
    if n > 0 { QmarkOfCaret(deps, n - 1, always); }
  }

  /** The room for the first n of $^, counting only names with a normal occurrence among the first m. */
  ghost function CaretRoom(deps: seq<Dep>, n: nat, m: nat): nat
    requires n <= |deps| && m <= |deps|
  {
    if n == 0 then 0
    else if First(deps, n - 1) && Normal(deps, m, deps[n - 1].name)
    then CaretRoom(deps, n - 1, m) + |deps[n - 1].name| + 1
    else CaretRoom(deps, n - 1, m)
  }

  /** Prerequisite m makes room for its own name, once. */
  lemma {:induction false} CaretRoomStep(deps: seq<Dep>, n: nat, m: nat)
    requires n <= |deps| && m < |deps|
    ensures CaretRoom(deps, n, m + 1) <= CaretRoom(deps, n, m)
      + if !deps[m].skipped && !deps[m].orderOnly && Seen(deps, n, deps[m].name) then |deps[m].name| + 1 else 0
  {
    if n > 0 {
      CaretRoomStep(deps, n - 1, m);
      var name := deps[n - 1].name;
      NormalStep(deps, m, name);
      SeenStep(deps, n - 1, deps[m].name);
    }
  }

  lemma NormalStep(deps: seq<Dep>, m: nat, name: string)
    requires m < |deps|
    ensures Normal(deps, m + 1, name) <==>
      Normal(deps, m, name) || (!deps[m].skipped && !deps[m].orderOnly && deps[m].name == name)
  {
    if !deps[m].skipped && !deps[m].orderOnly && deps[m].name == name {
      assert Normal(deps, m + 1, name);
    }
  }

  lemma {:induction false} NoNormal(deps: seq<Dep>, n: nat)
    requires n <= |deps|
    ensures CaretRoom(deps, n, 0) == 0
  {
    if n > 0 { NoNormal(deps, n - 1); }
  }

  lemma {:induction false} CaretRoomBound(deps: seq<Dep>, m: nat)
    requires m <= |deps|
    ensures CaretRoom(deps, |deps|, m) <= Room(Plus(deps, m))
  {
    if m == 0 {
      NoNormal(deps, |deps|);
    } else {
      CaretRoomBound(deps, m - 1);
      CaretRoomStep(deps, |deps|, m - 1);
      RoomMore(Plus(deps, m - 1), deps[m - 1].name);
    }
  }

  lemma {:induction false} CaretRoomIs(deps: seq<Dep>, n: nat)
    requires n <= |deps|
    ensures CaretRoom(deps, n, |deps|) == Room(Caret(deps, n))
  {
    if n > 0 {
      CaretRoomIs(deps, n - 1);
      RoomMore(Caret(deps, n - 1), deps[n - 1].name);
    }
  }

  /** $^ never needs more room than $+. */
  lemma CaretFits(deps: seq<Dep>)
    ensures Room(Caret(deps, |deps|)) <= Room(Plus(deps, |deps|))
  {
    CaretRoomBound(deps, |deps|);
    CaretRoomIs(deps, |deps|);
  }

  /** All order-only prerequisites. */
  function OrderOnly(deps: seq<Dep>, n: nat): seq<string>
    requires n <= |deps|
  {
    if n == 0 then []
    else if !deps[n - 1].skipped && deps[n - 1].orderOnly then OrderOnly(deps, n - 1) + [deps[n - 1].name]
    else OrderOnly(deps, n - 1)
  }

  /** $| never needs more room than they do. */
  lemma {:induction false} BarFits(deps: seq<Dep>, n: nat)
    requires n <= |deps|
    ensures Room(Bar(deps, n)) <= Room(OrderOnly(deps, n))
  {
    if n > 0 {
      BarFits(deps, n - 1);
      var name := deps[n - 1].name;
      RoomMore(Bar(deps, n - 1), name);
      RoomMore(OrderOnly(deps, n - 1), name);
      if !deps[n - 1].skipped && !deps[n - 1].orderOnly { assert Normal(deps, |deps|, name); }
    }
  }

  // ---- the room for $? ----

  predicate Newer(d: Dep, always: bool) {
    d.changed || always
  }

  /** The normal prerequisites that are newer than the target. */
  function PlusNewer(deps: seq<Dep>, n: nat, always: bool): seq<string>
    requires n <= |deps|
  {
    if n == 0 then []
    else if !deps[n - 1].skipped && !deps[n - 1].orderOnly && Newer(deps[n - 1], always)
    then PlusNewer(deps, n - 1, always) + [deps[n - 1].name]
    else PlusNewer(deps, n - 1, always)
  }

  /** Those that are not. */
  function PlusOlder(deps: seq<Dep>, n: nat, always: bool): seq<string>
    requires n <= |deps|
  {
    if n == 0 then []
    else if !deps[n - 1].skipped && !deps[n - 1].orderOnly && !Newer(deps[n - 1], always)
    then PlusOlder(deps, n - 1, always) + [deps[n - 1].name]
    else PlusOlder(deps, n - 1, always)
  }

  lemma {:induction false} PlusSplit(deps: seq<Dep>, n: nat, always: bool)
    requires n <= |deps|
    ensures Room(Plus(deps, n)) == Room(PlusNewer(deps, n, always)) + Room(PlusOlder(deps, n, always))
  {
    if n > 0 {
      PlusSplit(deps, n - 1, always);
      if !deps[n - 1].skipped && !deps[n - 1].orderOnly {
        RoomMore(Plus(deps, n - 1), deps[n - 1].name);
        if Newer(deps[n - 1], always) {
          RoomMore(PlusNewer(deps, n - 1, always), deps[n - 1].name);
        } else {
          RoomMore(PlusOlder(deps, n - 1, always), deps[n - 1].name);
        }
      }
    }
  }

  /** qmark_len: the room for the newer ones of $+, and one more; two more when $+ is empty. */
  function QmarkLength(deps: seq<Dep>, always: bool): nat {
    Room(PlusNewer(deps, |deps|, always)) + if Plus(deps, |deps|) == [] then 2 else 1
  }

  /** The name occurs as a normal prerequisite that is newer among the first m. */
  predicate NewerNormal(deps: seq<Dep>, m: nat, name: string, always: bool)
    requires m <= |deps|
  {
    exists j :: 0 <= j < m && !deps[j].skipped && deps[j].name == name && !deps[j].orderOnly && Newer(deps[j], always)
  }

  /** The first occurrence of the name is among the first n, and it is newer. */
  predicate Leading(deps: seq<Dep>, n: nat, name: string, always: bool)
    requires n <= |deps|
  {
    exists i :: 0 <= i < n && First(deps, i) && deps[i].name == name && Newer(deps[i], always)
  }

  /** Names of $? that no normal prerequisite makes room for: an order-only one came first and is newer. */
  function Lent(deps: seq<Dep>, n: nat, always: bool): seq<string>
    requires n <= |deps|
  {
    if n == 0 then []
    else if First(deps, n - 1) && Normal(deps, |deps|, deps[n - 1].name) && Newer(deps[n - 1], always)
      && !NewerNormal(deps, |deps|, deps[n - 1].name, always)
    then Lent(deps, n - 1, always) + [deps[n - 1].name]
    else Lent(deps, n - 1, always)
  }

  /** Prerequisite m is the first normal newer one of its name, and the name is in $?. */
  predicate Needed(deps: seq<Dep>, m: nat, always: bool)
    requires m < |deps|
  {
    !NewerNormal(deps, m, deps[m].name, always) && Leading(deps, |deps|, deps[m].name, always)
  }

  /** Normal prerequisites that make room without need: repeated ones, and those whose name is not in $?. */
  function Spare(deps: seq<Dep>, n: nat, always: bool): seq<string>
    requires n <= |deps|
  {
    if n == 0 then []
    else if !deps[n - 1].skipped && !deps[n - 1].orderOnly && Newer(deps[n - 1], always) && !Needed(deps, n - 1, always)
    then Spare(deps, n - 1, always) + [deps[n - 1].name]
    else Spare(deps, n - 1, always)
  }

  /** The room for the first n of $?, counting only names with a normal newer occurrence among the first m. */
  ghost function QmarkRoom(deps: seq<Dep>, n: nat, m: nat, always: bool): nat
    requires n <= |deps| && m <= |deps|
  {
    if n == 0 then 0
    else if First(deps, n - 1) && Newer(deps[n - 1], always) && NewerNormal(deps, m, deps[n - 1].name, always)
    then QmarkRoom(deps, n - 1, m, always) + |deps[n - 1].name| + 1
    else QmarkRoom(deps, n - 1, m, always)
  }

  lemma NewerNormalStep(deps: seq<Dep>, m: nat, name: string, always: bool)
    requires m < |deps|
    ensures NewerNormal(deps, m + 1, name, always) <==>
      NewerNormal(deps, m, name, always) ||
      (!deps[m].skipped && !deps[m].orderOnly && Newer(deps[m], always) && deps[m].name == name)
  {
    if !deps[m].skipped && !deps[m].orderOnly && Newer(deps[m], always) && deps[m].name == name {
      assert NewerNormal(deps, m + 1, name, always);
    }
  }

  lemma LeadingStep(deps: seq<Dep>, n: nat, name: string, always: bool)
    requires n < |deps|
    ensures Leading(deps, n + 1, name, always) <==>
      Leading(deps, n, name, always) || (First(deps, n) && deps[n].name == name && Newer(deps[n], always))
    ensures First(deps, n) && deps[n].name == name ==> !Leading(deps, n, name, always)
  {
    if First(deps, n) && deps[n].name == name && Newer(deps[n], always) {
      assert Leading(deps, n + 1, name, always);
    }
    if i :| 0 <= i < n && First(deps, i) && deps[i].name == name {
      assert Seen(deps, n, name);
    }
  }

  /**
   * What prerequisite m, if it is normal, newer and the first such of its name, adds to the room for the
   * first n of $?.
   */
  lemma {:induction false} QmarkRoomStep(deps: seq<Dep>, n: nat, m: nat, always: bool)
    requires n <= |deps| && m < |deps|
    ensures QmarkRoom(deps, n, m + 1, always) == QmarkRoom(deps, n, m, always)
      + if !deps[m].skipped && !deps[m].orderOnly && Newer(deps[m], always)
          && !NewerNormal(deps, m, deps[m].name, always) && Leading(deps, n, deps[m].name, always)
        then |deps[m].name| + 1 else 0
  {
    if n > 0 {
      QmarkRoomStep(deps, n - 1, m, always);
      NewerNormalStep(deps, m, deps[n - 1].name, always);
      LeadingStep(deps, n - 1, deps[m].name, always);
    }
  }

  lemma {:induction false} NoNewerNormal(deps: seq<Dep>, n: nat, always: bool)
    requires n <= |deps|
    ensures QmarkRoom(deps, n, 0, always) == 0
  {
    if n > 0 { NoNewerNormal(deps, n - 1, always); }
  }

  /** The newer normal prerequisites make the room that is needed, and the spare room. */
  lemma {:induction false} NewerIsNeededOrSpare(deps: seq<Dep>, m: nat, always: bool)
    requires m <= |deps|
    ensures Room(PlusNewer(deps, m, always)) == QmarkRoom(deps, |deps|, m, always) + Room(Spare(deps, m, always))
  {
    if m == 0 {
      NoNewerNormal(deps, |deps|, always);
    } else {
      NewerIsNeededOrSpare(deps, m - 1, always);
      QmarkRoomStep(deps, |deps|, m - 1, always);
      if !deps[m - 1].skipped && !deps[m - 1].orderOnly && Newer(deps[m - 1], always) {
        RoomMore(PlusNewer(deps, m - 1, always), deps[m - 1].name);
        if !Needed(deps, m - 1, always) { RoomMore(Spare(deps, m - 1, always), deps[m - 1].name); }
      }
    }
  }

  /** $? takes the room that is made for it, and what it is lent. */
  lemma {:induction false} QmarkIsRoomOrLent(deps: seq<Dep>, n: nat, always: bool)
    requires n <= |deps|
    ensures Room(Qmark(deps, n, always)) == QmarkRoom(deps, n, |deps|, always) + Room(Lent(deps, n, always))
  {
    if n > 0 {
      QmarkIsRoomOrLent(deps, n - 1, always);
      var name := deps[n - 1].name;
      if NewerNormal(deps, |deps|, name, always) { assert Normal(deps, |deps|, name); }
      if First(deps, n - 1) && Normal(deps, |deps|, name) && Newer(deps[n - 1], always) {
        RoomMore(Qmark(deps, n - 1, always), name);
        if !NewerNormal(deps, |deps|, name, always) { RoomMore(Lent(deps, n - 1, always), name); }
      }
    }
  }

  lemma {:induction false} QmarkRoomOfCaret(deps: seq<Dep>, n: nat, always: bool)
    requires n <= |deps|
    ensures Room(Qmark(deps, n, always)) <= Room(Caret(deps, n))
  {
    if n > 0 {
      QmarkRoomOfCaret(deps, n - 1, always);
      if First(deps, n - 1) && Normal(deps, |deps|, deps[n - 1].name) {
        RoomMore(Caret(deps, n - 1), deps[n - 1].name);
        if Newer(deps[n - 1], always) { RoomMore(Qmark(deps, n - 1, always), deps[n - 1].name); }
      }
    }
  }

  /** The length computed for $? is enough exactly when what is lent is at most one more than what is spare. */
  lemma QmarkFitsIff(deps: seq<Dep>, always: bool)
    ensures Room(Qmark(deps, |deps|, always)) <= QmarkLength(deps, always) <==>
      Room(Lent(deps, |deps|, always)) <= Room(Spare(deps, |deps|, always)) + 1
  {
    NewerIsNeededOrSpare(deps, |deps|, always);
    QmarkIsRoomOrLent(deps, |deps|, always);
    QmarkRoomOfCaret(deps, |deps|, always);
    CaretFits(deps);
  }

  /** It is enough under --always-make, and when all occurrences of a name are newer or none is. */
  lemma {:induction false} NothingLent(deps: seq<Dep>, n: nat, always: bool)
    requires n <= |deps|
    requires always || forall i, j :: 0 <= i < j < |deps| && deps[i].name == deps[j].name ==>
      deps[i].changed == deps[j].changed
    ensures Lent(deps, n, always) == []
  {
    if n > 0 {
      NothingLent(deps, n - 1, always);
      var name := deps[n - 1].name;
      if Normal(deps, |deps|, name) && Newer(deps[n - 1], always) {
        var j :| 0 <= j < |deps| && !deps[j].skipped && deps[j].name == name && !deps[j].orderOnly;
        assert Newer(deps[j], always);
      }
    }
  }

  /** An order-only prerequisite that is newer, and then a normal one of the same name that is not. */
  function OneLent(name: string): seq<Dep> {
    [Dep(name, true, true, false), Dep(name, false, false, false)]
  }

  /** The length computed is one, whatever the name: it does not fit. */
  lemma QmarkOverrun(name: string)
    requires name != ""
    ensures QmarkLength(OneLent(name), false) == 1
    ensures Qmark(OneLent(name), 2, false) == [name]
    ensures Room(Qmark(OneLent(name), 2, false)) > QmarkLength(OneLent(name), false)
  {
    var deps := OneLent(name);
    OneLentLists(deps, name, 1, 2);
    RoomMore([], name);
  }

  lemma OneLentLists(deps: seq<Dep>, name: string, one: nat, two: nat)
    requires deps == OneLent(name) && one - 1 == 0 && two - 1 == one
    ensures Plus(deps, two) == [name] && PlusNewer(deps, two, false) == [] && Qmark(deps, two, false) == [name]
  {
    assert !deps[one].skipped && deps[one].name == name && !deps[one].orderOnly;
    assert Normal(deps, two, name) && First(deps, 0);
    assert Seen(deps, one, name) by { assert deps[0].name == name; }
    assert Plus(deps, one) == [] && PlusNewer(deps, one, false) == [] && Qmark(deps, one, false) == [] + [name];
  }

  /** The buffer holds these names up to the given place. */
  ghost predicate Holds(buf: array<char>, at: nat, names: seq<string>)
    reads buf
  {
    at <= buf.Length && buf[..at] == Spaced(names)
  }

  /** cp = mempcpy (cp, c, len); *cp++ = ' ' */
  method Put(buf: array<char>, at: nat, w: string, ghost names: seq<string>) returns (cp: nat)
    requires at + |w| + 1 <= buf.Length && Holds(buf, at, names)
    modifies buf
    ensures Holds(buf, cp, names + [w])
  {
    SpacedMore(names, w);
    cp := at;
    for k := 0 to |w|
      invariant cp == at + k && buf[..cp] == Spaced(names) + w[..k]
    {
      buf[cp] := w[k];
      cp := cp + 1;
      assert buf[..cp] == (Spaced(names) + w[..k]) + [w[k]];
      assert w[..k + 1] == w[..k] + [w[k]];
    }
    buf[cp] := ' ';
    cp := cp + 1;
    assert w[..|w|] == w;
    assert buf[..cp] == (Spaced(names) + w) + " ";
  }

  /** Kill the last space and take the value. */
  method Value(buf: array<char>, cp: nat, ghost names: seq<string>) returns (value: string)
    requires Holds(buf, cp, names)
    ensures value == Text(names)
  {
    value := if cp > 0 then buf[..cp - 1] else "";
    assert cp > 0 ==> buf[..cp - 1] == buf[..cp][..cp - 1];
  }

  /** The buffer lengths computed for $+ and $|. */
  method Lengths(deps: seq<Dep>) returns (plusLen: nat, barLen: nat)
    ensures plusLen == AtLeastOne(Room(Plus(deps, |deps|))) && barLen == AtLeastOne(Room(OrderOnly(deps, |deps|)))
  {
    plusLen, barLen := 0, 0;
    for n := 0 to |deps|
      invariant plusLen == Room(Plus(deps, n)) && barLen == Room(OrderOnly(deps, n))
    {
      if !deps[n].skipped {
        if deps[n].orderOnly {
          RoomMore(OrderOnly(deps, n), deps[n].name);
          barLen := barLen + |deps[n].name| + 1;
        } else {
          RoomMore(Plus(deps, n), deps[n].name);
          plusLen := plusLen + |deps[n].name| + 1;
        }
      }
    }
    if barLen == 0 { barLen := 1; }
    if plusLen == 0 { plusLen := 1; }
  }

  function AtLeastOne(n: nat): nat {
    if n == 0 then 1 else n
  }

  /** Shorter lists take less room. */
  lemma {:induction false} PlusGrows(deps: seq<Dep>, n: nat, m: nat)
    requires n <= m <= |deps|
    ensures Room(Plus(deps, n)) <= Room(Plus(deps, m))
    decreases m
  {
    if n < m {
      PlusGrows(deps, n, m - 1);
      RoomMore(Plus(deps, m - 1), deps[m - 1].name);
    }
  }

  lemma {:induction false} OlderGrows(deps: seq<Dep>, n: nat, m: nat, always: bool)
    requires n <= m <= |deps|
    ensures Room(PlusOlder(deps, n, always)) <= Room(PlusOlder(deps, m, always))
    decreases m
  {
    if n < m {
      OlderGrows(deps, n, m - 1, always);
      RoomMore(PlusOlder(deps, m - 1, always), deps[m - 1].name);
    }
  }

  /** There is room for one more of $+. */
  lemma PlusStep(deps: seq<Dep>, n: nat)
    requires n < |deps| && !deps[n].skipped && !deps[n].orderOnly
    ensures Room(Plus(deps, n)) + |deps[n].name| + 1 <= Room(Plus(deps, |deps|))
  {
    PlusGrows(deps, n + 1, |deps|);
    RoomMore(Plus(deps, n), deps[n].name);
  }

  lemma OlderStep(deps: seq<Dep>, n: nat, always: bool)
    requires n < |deps| && !deps[n].skipped && !deps[n].orderOnly && !Newer(deps[n], always)
    ensures Room(PlusOlder(deps, n + 1, always)) == Room(PlusOlder(deps, n, always)) + |deps[n].name| + 1
    ensures Room(PlusOlder(deps, n + 1, always)) <= Room(PlusOlder(deps, |deps|, always))
  {
    OlderGrows(deps, n + 1, |deps|, always);
    RoomMore(PlusOlder(deps, n, always), deps[n].name);
  }

  /** The length for $? that is left when the room of the older prerequisites is taken off. */
  lemma QmarkLengthIs(deps: seq<Dep>, always: bool)
    ensures AtLeastOne(Room(Plus(deps, |deps|))) + 1 ==
      QmarkLength(deps, always) + Room(PlusOlder(deps, |deps|, always))
  {
    PlusSplit(deps, |deps|, always);
  }

  /** The loop that writes $+ and computes the length for $?. */
  method WritePlus(deps: seq<Dep>, always: bool, plusLen: nat, buf: array<char>) returns (value: string, qmarkLen: nat)
    requires plusLen == AtLeastOne(Room(Plus(deps, |deps|))) <= buf.Length
    modifies buf
    ensures value == Text(Plus(deps, |deps|)) && qmarkLen == QmarkLength(deps, always)
  {
    QmarkLengthIs(deps, always);
    var cp := 0;
    qmarkLen := plusLen + 1;
    for n := 0 to |deps|
      invariant cp >= 0 && Holds(buf, cp, Plus(deps, n))
      invariant qmarkLen + Room(PlusOlder(deps, n, always)) == plusLen + 1
    {
      if !deps[n].skipped && !deps[n].orderOnly {
        PlusStep(deps, n);
        assert cp == |buf[..cp]|;
        cp := Put(buf, cp, deps[n].name, Plus(deps, n));
        if !Newer(deps[n], always) {
          OlderStep(deps, n, always);
          qmarkLen := qmarkLen - (|deps[n].name| + 1);
        }
      }
    }
    value := Value(buf, cp, Plus(deps, |deps|));
  }

  /** Only order-only flags have changed, and only among the first n. */
  ghost predicate SameDeps(deps: seq<Dep>, ds: seq<Dep>, n: nat) {
    && |ds| == |deps|
    && (forall k :: 0 <= k < |deps| ==> ds[k] == deps[k].(orderOnly := ds[k].orderOnly))
    && (forall k :: n <= k < |deps| ==> ds[k] == deps[k])
  }

  /** After n prerequisites: the table has the first occurrence of each name, order-only if no normal one was seen. */
  ghost predicate Upgraded(deps: seq<Dep>, ds: seq<Dep>, table: map<string, nat>, n: nat)
    requires n <= |deps|
  {
    && SameDeps(deps, ds, n)
    && (forall w :: w in table <==> Seen(deps, n, w))
    && (forall w :: w in table ==> FirstOf(deps, ds, table[w], n, w))
  }

  ghost predicate FirstOf(deps: seq<Dep>, ds: seq<Dep>, h: nat, n: nat, w: string)
    requires n <= |deps| == |ds|
  {
    h < n && First(deps, h) && deps[h].name == w && (ds[h].orderOnly <==> !Normal(deps, n, w))
  }

  /** The entry of a name that prerequisite n does not have stays as it is. */
  lemma OtherStays(deps: seq<Dep>, ds: seq<Dep>, ds': seq<Dep>, h: nat, n: nat, w: string)
    requires n < |deps| == |ds| == |ds'| && FirstOf(deps, ds, h, n, w) && ds'[h] == ds[h]
    requires deps[n].skipped || deps[n].name != w || deps[n].orderOnly || !ds[h].orderOnly
    ensures FirstOf(deps, ds', h, n + 1, w)
  {
    NormalStep(deps, n, w);
  }

  lemma SeenAfter(deps: seq<Dep>, n: nat, table: map<string, nat>, table': map<string, nat>)
    requires n < |deps| && forall w :: w in table <==> Seen(deps, n, w)
    requires forall w :: w in table' <==> w in table || (!deps[n].skipped && w == deps[n].name)
    ensures forall w :: w in table' <==> Seen(deps, n + 1, w)
  {
    forall w ensures w in table' <==> Seen(deps, n + 1, w) {
      SeenStep(deps, n, w);
    }
  }

  /** The prerequisite is skipped, or order-only like what is known of its name, or normal like it. */
  lemma UpgradeNothing(deps: seq<Dep>, ds: seq<Dep>, table: map<string, nat>, n: nat)
    requires n < |deps| && Upgraded(deps, ds, table, n)
    requires deps[n].skipped || (deps[n].name in table && ds[table[deps[n].name]].orderOnly == deps[n].orderOnly)
    ensures Upgraded(deps, ds, table, n + 1)
  {
    SeenAfter(deps, n, table, table);
    forall w | w in table ensures FirstOf(deps, ds, table[w], n + 1, w) {
      OtherStays(deps, ds, ds, table[w], n, w);
    }
  }

  /** The name is new. */
  lemma UpgradeNew(deps: seq<Dep>, ds: seq<Dep>, table: map<string, nat>, n: nat)
    requires n < |deps| && Upgraded(deps, ds, table, n) && !deps[n].skipped && deps[n].name !in table
    ensures Upgraded(deps, ds, table[deps[n].name := n], n + 1)
  {
    var table' := table[deps[n].name := n];
    SeenAfter(deps, n, table, table');
    forall w | w in table' ensures FirstOf(deps, ds, table'[w], n + 1, w) {
      if w == deps[n].name {
        NormalStep(deps, n, w);
        NotSeen(deps, n, w);
      } else {
        OtherStays(deps, ds, ds, table[w], n, w);
      }
    }
  }

  /** Both flags cleared. */
  function Cleared(ds: seq<Dep>, n: nat, h: nat): (r: seq<Dep>)
    requires n < |ds| && h < |ds|
    ensures |r| == |ds| && !r[h].orderOnly
    ensures forall k :: 0 <= k < |ds| ==> r[k] == ds[k].(orderOnly := r[k].orderOnly)
    ensures forall k :: 0 <= k < |ds| && k != n && k != h ==> r[k] == ds[k]
  {
    ds[n := ds[n].(orderOnly := false)][h := ds[h].(orderOnly := false)]
  }

  lemma ClearedSame(deps: seq<Dep>, ds: seq<Dep>, n: nat, h: nat)
    requires SameDeps(deps, ds, n) && h < n < |deps|
    ensures SameDeps(deps, Cleared(ds, n, h), n + 1)
  {
  }

  lemma ClearedFirst(deps: seq<Dep>, ds: seq<Dep>, n: nat, h: nat, i: nat, w: string)
    requires h < n < |deps| == |ds| && FirstOf(deps, ds, h, n, deps[n].name) && FirstOf(deps, ds, i, n, w)
    requires !deps[n].skipped && deps[n].orderOnly != ds[h].orderOnly && (w == deps[n].name ==> i == h)
    ensures FirstOf(deps, Cleared(ds, n, h), i, n + 1, w)
  {
    NormalStep(deps, n, w);
  }

  /** A normal and an order-only occurrence meet: both become normal. */
  lemma UpgradeBoth(deps: seq<Dep>, ds: seq<Dep>, table: map<string, nat>, n: nat, h: nat)
    requires n < |deps| && Upgraded(deps, ds, table, n) && !deps[n].skipped
    requires deps[n].name in table && h == table[deps[n].name] && h < n && ds[h].orderOnly != deps[n].orderOnly
    ensures Upgraded(deps, Cleared(ds, n, h), table, n + 1)
  {
    SeenAfter(deps, n, table, table);
    ClearedSame(deps, ds, n, h);
    forall w | w in table ensures FirstOf(deps, Cleared(ds, n, h), table[w], n + 1, w) {
      ClearedFirst(deps, ds, n, h, table[w], w);
    }
  }

  lemma NotSeen(deps: seq<Dep>, n: nat, w: string)
    requires n <= |deps| && !Seen(deps, n, w)
    ensures !Normal(deps, n, w)
  {
  }

  /** One round of the loop that fills the table. */
  method Upgrade(deps: seq<Dep>, ds: seq<Dep>, table: map<string, nat>, n: nat)
    returns (ds': seq<Dep>, table': map<string, nat>)
    requires n < |deps| && Upgraded(deps, ds, table, n)
    ensures Upgraded(deps, ds', table', n + 1)
  {
    ds', table' := ds, table;
    var name := ds[n].name;
    if ds[n].skipped {
      UpgradeNothing(deps, ds, table, n);
    } else if name !in table {
      UpgradeNew(deps, ds, table, n);
      table' := table[name := n];
    } else {
      var h := table[name];
      assert FirstOf(deps, ds, h, n, name);
      if ds[n].orderOnly != ds[h].orderOnly {
        ds' := Cleared(ds, n, h);
        UpgradeBoth(deps, ds, table, n, h);
      } else {
        UpgradeNothing(deps, ds, table, n);
      }
    }
  }

  /** The entry of the table is the first occurrence. */
  lemma IsFirst(deps: seq<Dep>, ds: seq<Dep>, table: map<string, nat>, i: nat)
    requires i < |deps| && Upgraded(deps, ds, table, |deps|) && !deps[i].skipped
    ensures deps[i].name in table
    ensures table[deps[i].name] == i <==> First(deps, i)
    ensures First(deps, i) ==> (ds[i].orderOnly <==> !Normal(deps, |deps|, deps[i].name))
  {
    var name := deps[i].name;
    assert Seen(deps, |deps|, name);
    assert FirstOf(deps, ds, table[name], |deps|, name);
    OneFirst(deps, i, table[name]);
  }

  lemma OneFirst(deps: seq<Dep>, i: nat, h: nat)
    requires i < |deps| && h < |deps| && !deps[i].skipped && First(deps, h) && deps[h].name == deps[i].name
    ensures h <= i && (First(deps, i) ==> h == i)
  {
    LaterNotFirst(deps, i, h);
    LaterNotFirst(deps, h, i);
  }

  lemma LaterNotFirst(deps: seq<Dep>, i: nat, h: nat)
    requires i < |deps| && h < |deps|
    ensures i < h && !deps[i].skipped && deps[i].name == deps[h].name ==> !First(deps, h)
  {
    if i < h && !deps[i].skipped && deps[i].name == deps[h].name {
      assert Seen(deps, h, deps[h].name);
    }
  }

  /**
   * The part of set_file_variables that sets $+, $^, $? and $|, given the sizes that the three
   * buffers have from earlier calls. The buffers of $^ and $| are always large enough; that of
   * $? is overrun exactly when more is lent than is spare, and no earlier call has made it larger.
   */
  method SetFileVariables(deps: seq<Dep>, always: bool, plusMax: nat, qmarkMax: nat, barMax: nat)
    returns (overrun: bool, plus: string, caret: string, qmark: string, bar: string)
    ensures plus == Text(Plus(deps, |deps|))
    ensures overrun <==>
      Room(Lent(deps, |deps|, always)) > Room(Spare(deps, |deps|, always)) + 1 &&
      Room(Qmark(deps, |deps|, always)) > qmarkMax
    ensures !overrun ==> caret == Text(Caret(deps, |deps|)) && bar == Text(Bar(deps, |deps|))
    ensures !overrun ==> qmark == Text(Qmark(deps, |deps|, always))
  {
    var plusLen, barLen := Lengths(deps);
    var buf := NewBuffer(plusLen, plusMax);
    var qmarkLen;
    plus, qmarkLen := WritePlus(deps, always, plusLen, buf);
    var qbuf := NewBuffer(qmarkLen, qmarkMax);
    var bbuf := NewBuffer(barLen, barMax);
    var ds, table := deps, map[];
    for n := 0 to |deps|
      invariant Upgraded(deps, ds, table, n)
    {
      ds, table := Upgrade(deps, ds, table, n);
    }
    CaretFits(deps);
    BarFits(deps, |deps|);
    QmarkFitsIff(deps, always);
    TakenIs(deps, ds, table, |deps|, always);
    overrun, caret, qmark, bar := WriteRest(ds, table, always, buf, qbuf, bbuf);
  }

  /** xrealloc, unless an earlier call has made the buffer larger. */
  method NewBuffer(len: nat, max: nat) returns (buf: array<char>)
    ensures fresh(buf) && buf.Length == if len > max then len else max
  {
    buf := new char[if len > max then len else max](_ => '\0');
  }

  /** The prerequisite takes its turn in the last loop. */
  predicate Takes(ds: seq<Dep>, table: map<string, nat>, n: nat)
    requires n < |ds|
  {
    !ds[n].skipped && ds[n].name in table && table[ds[n].name] == n
  }

  /** Where the names go: $^, $? and $|. */
  datatype Goal = ToCaret | ToQmark | ToBar

  predicate Goes(d: Dep, goal: Goal, always: bool) {
    match goal
    case ToCaret => !d.orderOnly
    case ToQmark => !d.orderOnly && Newer(d, always)
    case ToBar => d.orderOnly
  }

  /** The names that the last loop writes for the first n prerequisites. */
  function Taken(ds: seq<Dep>, table: map<string, nat>, n: nat, goal: Goal, always: bool): seq<string>
    requires n <= |ds|
  {
    if n == 0 then []
    else if Takes(ds, table, n - 1) && Goes(ds[n - 1], goal, always)
    then Taken(ds, table, n - 1, goal, always) + [ds[n - 1].name]
    else Taken(ds, table, n - 1, goal, always)
  }

  /** They are what the variables are to have. */
  lemma {:induction false} TakenIs(deps: seq<Dep>, ds: seq<Dep>, table: map<string, nat>, n: nat, always: bool)
    requires n <= |deps| && Upgraded(deps, ds, table, |deps|)
    ensures Taken(ds, table, n, ToCaret, always) == Caret(deps, n)
    ensures Taken(ds, table, n, ToQmark, always) == Qmark(deps, n, always)
    ensures Taken(ds, table, n, ToBar, always) == Bar(deps, n)
  {
    if n > 0 {
      TakenIs(deps, ds, table, n - 1, always);
      if !deps[n - 1].skipped { IsFirst(deps, ds, table, n - 1); }
    }
  }

  lemma {:induction false} TakenGrows(ds: seq<Dep>, table: map<string, nat>, n: nat, m: nat, goal: Goal, always: bool)
    requires n <= m <= |ds|
    ensures Room(Taken(ds, table, n, goal, always)) <= Room(Taken(ds, table, m, goal, always))
    decreases m
  {
    if n < m {
      TakenGrows(ds, table, n, m - 1, goal, always);
      RoomMore(Taken(ds, table, m - 1, goal, always), ds[m - 1].name);
    }
  }

  lemma TakenStep(ds: seq<Dep>, table: map<string, nat>, n: nat, goal: Goal, always: bool, names: seq<string>)
    requires n < |ds| && names == Taken(ds, table, n, goal, always)
    ensures Taken(ds, table, n + 1, goal, always) ==
      if Takes(ds, table, n) && Goes(ds[n], goal, always) then names + [ds[n].name] else names
  {
  }

  /** The room that prerequisite n needs. */
  lemma RoomLeft(ds: seq<Dep>, table: map<string, nat>, n: nat, goal: Goal, always: bool)
    requires n < |ds| && Takes(ds, table, n) && Goes(ds[n], goal, always)
    ensures Room(Taken(ds, table, n, goal, always)) + |ds[n].name| + 1 <= Room(Taken(ds, table, |ds|, goal, always))
  {
    TakenGrows(ds, table, n + 1, |ds|, goal, always);
    RoomMore(Taken(ds, table, n, goal, always), ds[n].name);
  }

  /** Write one name where it belongs; false when it would go past the buffer of $?. */
  method Emit(d: Dep, always: bool, buf: array<char>, qbuf: array<char>, bbuf: array<char>, cp: nat, qp: nat, bp: nat,
        ghost cs: seq<string>, ghost qs: seq<string>, ghost bs: seq<string>)
    returns (ok: bool, cp': nat, qp': nat, bp': nat)
    requires buf != qbuf && qbuf != bbuf && buf != bbuf
    requires Holds(buf, cp, cs) && Holds(qbuf, qp, qs) && Holds(bbuf, bp, bs)
    requires if d.orderOnly then Room(bs) + |d.name| + 1 <= bbuf.Length else Room(cs) + |d.name| + 1 <= buf.Length
    modifies buf, qbuf, bbuf
    ensures ok <==> !Goes(d, ToQmark, always) || Room(qs) + |d.name| + 1 <= qbuf.Length
    ensures ok ==> Holds(buf, cp', if d.orderOnly then cs else cs + [d.name])
    ensures ok ==> Holds(qbuf, qp', if Goes(d, ToQmark, always) then qs + [d.name] else qs)
    ensures ok ==> Holds(bbuf, bp', if d.orderOnly then bs + [d.name] else bs)
  {
    ok, cp', qp', bp' := true, cp, qp, bp;
    assert cp == |buf[..cp]| && qp == |qbuf[..qp]| && bp == |bbuf[..bp]|;
    if d.orderOnly {
      bp' := Put(bbuf, bp, d.name, bs);
    } else {
      cp' := Put(buf, cp, d.name, cs);
      if Newer(d, always) {
        ok := qp + |d.name| + 1 <= qbuf.Length;
        if ok { qp' := Put(qbuf, qp, d.name, qs); }
      }
    }
  }

  /** The last loop: $^ goes into the buffer of $+. It ends where a name would go past the buffer of $?. */
  method WriteRest(ds: seq<Dep>, table: map<string, nat>, always: bool,
        buf: array<char>, qbuf: array<char>, bbuf: array<char>)
    returns (overrun: bool, caret: string, qmark: string, bar: string)
    requires buf != qbuf && qbuf != bbuf && buf != bbuf
    requires Room(Taken(ds, table, |ds|, ToCaret, always)) <= buf.Length
    requires Room(Taken(ds, table, |ds|, ToBar, always)) <= bbuf.Length
    modifies buf, qbuf, bbuf
    ensures overrun <==> Room(Taken(ds, table, |ds|, ToQmark, always)) > qbuf.Length
    ensures !overrun ==> caret == Text(Taken(ds, table, |ds|, ToCaret, always))
    ensures !overrun ==> qmark == Text(Taken(ds, table, |ds|, ToQmark, always))
    ensures !overrun ==> bar == Text(Taken(ds, table, |ds|, ToBar, always))
  {
    var cp, qp, bp := 0, 0, 0;
    ghost var cs, qs, bs: seq<string> := [], [], [];
    for n := 0 to |ds|
      invariant cp >= 0 && qp >= 0 && bp >= 0
      invariant Holds(buf, cp, cs) && Holds(qbuf, qp, qs) && Holds(bbuf, bp, bs)
      invariant cs == Taken(ds, table, n, ToCaret, always)
      invariant qs == Taken(ds, table, n, ToQmark, always)
      invariant bs == Taken(ds, table, n, ToBar, always)
    {
      TakenStep(ds, table, n, ToCaret, always, cs);
      TakenStep(ds, table, n, ToQmark, always, qs);
      TakenStep(ds, table, n, ToBar, always, bs);
      if Takes(ds, table, n) {
        RoomLeft(ds, table, n, if ds[n].orderOnly then ToBar else ToCaret, always);
        if Goes(ds[n], ToQmark, always) { RoomLeft(ds, table, n, ToQmark, always); }
        var ok;
        ok, cp, qp, bp := Emit(ds[n], always, buf, qbuf, bbuf, cp, qp, bp, cs, qs, bs);
        if !ok { return true, "", "", ""; }
        cs, bs := if ds[n].orderOnly then cs else cs + [ds[n].name], if ds[n].orderOnly then bs + [ds[n].name] else bs;
        qs := if Goes(ds[n], ToQmark, always) then qs + [ds[n].name] else qs;
      }
    }
    overrun := false;
    assert qp == |qbuf[..qp]|;
    caret := Value(buf, cp, cs);
    qmark := Value(qbuf, qp, qs);
    bar := Value(bbuf, bp, bs);
  }
}
