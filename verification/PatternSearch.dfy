/**
 * pattern_search (gnumake/src/implicit.c): find an implicit rule for a file, if need be by
 * way of intermediate files that other implicit rules make.
 */
module PatternSearch {

  import opened PatternRules
  import opened TryRules
  import opened Wrappers

  /** The query for an intermediate file. */
  function Intermediate(world: World, name: string, allowCompat: bool): (q: Query)
    ensures q.Valid() && q == Query(name, q.pathlen, [], true, allowCompat)
    ensures if world.archive(name) then q.pathlen == 0 else DirectoryEnds(name, q.pathlen)
  {
    Query(name, PathLength(name, world.archive(name)), [], true, allowCompat)
  }

  function PrereqsOf(rules: seq<Rule>, q: Query, r: nat, ti: nat): seq<string>
    requires q.Valid() && r < |rules| && ti < |rules[r].targets| && Stem(rules[r].targets[ti], q.name, q.pathlen).Some?
  {
    var t := rules[r].targets[ti];
    Prereqs(rules[r].deps, Directory(t, q.name, q.pathlen), Stem(t, q.name, q.pathlen).value)
  }

  /** What is found for the prerequisites one after the other, up to the first that does not qualify. */
  function Accepted(names: seq<string>, world: World, files: Files, q: Query): (needs: seq<Need>)
    ensures |needs| <= |names|
  {
    if names == [] || names[0] in files.impossible then []
    else
      match Accept(names[0], world, files, q.own, q.allowCompat)
      case None => []
      case Some(why) => [Known(names[0], why)] + Accepted(names[1..], world, files, q)
  }

  predicate AllAccepted(names: seq<string>, world: World, files: Files, q: Query) {
    |Accepted(names, world, files, q)| == |names|
  }

  /**
   * A derivation that holds up: the parts rebuild the name, the needs are the prerequisites of
   * the rule, each of them qualifies or is made by rules that are not yet in use, and a terminal
   * rule needs no intermediate file.
   */
  ghost predicate Sound(rules: seq<Rule>, world: World, files: Files, used: set<nat>, q: Query, d: Derivation)
    decreases d, 1
  {
    Chosen(rules, world, files, used, q, d) && forall n :: n in d.needs && n.Made? ==> n.name in files.targets
  }

  /** The same, before the intermediate files are entered as targets. */
  ghost predicate Chosen(rules: seq<Rule>, world: World, files: Files, used: set<nat>, q: Query, d: Derivation)
    decreases d, 0
  {
    && q.Valid() && Usable(rules, used, q, d.rule, d.target)
    && d.dir == Directory(rules[d.rule].targets[d.target], q.name, q.pathlen)
    && Rebuilds(rules[d.rule].targets[d.target], q.name, q.pathlen, d.stem)
    && (rules[d.rule].terminal || rules[d.rule].deps == [] ==> NoneMade(d.needs))
    && (rules[d.rule].deps != [] ==> NeedNames(d.needs) == Prereqs(rules[d.rule].deps, d.dir, d.stem))
    && forall i :: 0 <= i < |d.needs| ==> NeedHolds(rules, world, files, used + {d.rule}, q, d.compat, d.needs[i])
  }

  ghost predicate NeedHolds(rules: seq<Rule>, world: World, files: Files, used: set<nat>, q: Query, compat: bool,
        n: Need)
    decreases n
  {
    match n
    case Known(name, why) => Qualifies(name, why, world, files, q.own, compat)
    case Made(name, how) => Sound(rules, world, files, used, Intermediate(world, name, false), how)
  }

  ghost predicate NeedsHold(rules: seq<Rule>, world: World, files: Files, used: set<nat>, q: Query, compat: bool,
        needs: seq<Need>) {
    forall i :: 0 <= i < |needs| ==> NeedHolds(rules, world, files, used, q, compat, needs[i])
  }

  /** What make learns during a search does not undo a derivation. */
  lemma {:induction false} SoundStays(rules: seq<Rule>, world: World, files: Files, later: Files, used: set<nat>,
        q: Query, d: Derivation)
    requires Sound(rules, world, files, used, q, d) && files.Below(later)
    ensures Sound(rules, world, later, used, q, d)
    decreases d
  {
    forall i | 0 <= i < |d.needs| ensures NeedHolds(rules, world, later, used + {d.rule}, q, d.compat, d.needs[i]) {
      NeedStays(rules, world, files, later, used + {d.rule}, q, d.compat, d.needs[i]);
    }
  }

  lemma {:induction false} NeedStays(rules: seq<Rule>, world: World, files: Files, later: Files, used: set<nat>,
        q: Query, compat: bool, n: Need)
    requires NeedHolds(rules, world, files, used, q, compat, n) && files.Below(later)
    ensures NeedHolds(rules, world, later, used, q, compat, n)
    decreases n
  {
    if n.Made? {
      SoundStays(rules, world, files, later, used, Intermediate(world, n.name, false), n.how);
    }
  }

  lemma NeedsStay(rules: seq<Rule>, world: World, files: Files, later: Files, used: set<nat>, q: Query, compat: bool,
        needs: seq<Need>)
    requires NeedsHold(rules, world, files, used, q, compat, needs) && files.Below(later)
    ensures NeedsHold(rules, world, later, used, q, compat, needs)
  {
    forall i | 0 <= i < |needs| ensures NeedHolds(rules, world, later, used, q, compat, needs[i]) {
      NeedStays(rules, world, files, later, used, q, compat, needs[i]);
    }
  }

  lemma ChosenStays(rules: seq<Rule>, world: World, files: Files, later: Files, used: set<nat>, q: Query, d: Derivation)
    requires Chosen(rules, world, files, used, q, d) && files.Below(later)
    ensures Chosen(rules, world, later, used, q, d)
  {
    NeedsStay(rules, world, files, later, used + {d.rule}, q, d.compat, d.needs);
  }

  /** Whether the search may be for the first or for the second time does not matter to a derivation. */
  lemma SoundAnyway(rules: seq<Rule>, world: World, files: Files, used: set<nat>, q: Query, q': Query, d: Derivation)
    requires Sound(rules, world, files, used, q, d) && q' == q.(allowCompat := q'.allowCompat)
    ensures Sound(rules, world, files, used, q', d)
  {
    forall i | 0 <= i < |d.needs| ensures NeedHolds(rules, world, files, used + {d.rule}, q', d.compat, d.needs[i]) {
      assert NeedHolds(rules, world, files, used + {d.rule}, q, d.compat, d.needs[i]);
    }
  }

  lemma {:induction false} AcceptedHold(rules: seq<Rule>, world: World, files: Files, used: set<nat>, q: Query,
        names: seq<string>)
    ensures NeedsHold(rules, world, files, used, q, q.allowCompat, Accepted(names, world, files, q))
    ensures NoneMade(Accepted(names, world, files, q))
  {
    var needs := Accepted(names, world, files, q);
    if needs != [] {
      AcceptedHold(rules, world, files, used, q, names[1..]);
      forall i | 0 <= i < |needs| ensures NeedHolds(rules, world, files, used, q, q.allowCompat, needs[i]) {
        assert i > 0 ==> needs[i] == Accepted(names[1..], world, files, q)[i - 1];
      }
    }
  }

  /** The name would be accepted. */
  predicate Good(name: string, world: World, files: Files, q: Query) {
    name !in files.impossible && Accept(name, world, files, q.own, q.allowCompat).Some?
  }

  lemma {:induction false} AllAcceptedIff(names: seq<string>, world: World, files: Files, q: Query)
    ensures AllAccepted(names, world, files, q) <==> forall i :: 0 <= i < |names| ==> Good(names[i], world, files, q)
  {
    if names != [] {
      AllAcceptedIff(names[1..], world, files, q);
      forall i | 1 <= i < |names| ensures names[i] == names[1..][i - 1] {
      }
      if AllAccepted(names[1..], world, files, q) && Good(names[0], world, files, q) {
        forall i | 0 <= i < |names| ensures Good(names[i], world, files, q) {
          assert i > 0 ==> Good(names[1..][i - 1], world, files, q);
        }
      }
      if forall i :: 0 <= i < |names| ==> Good(names[i], world, files, q) {
        assert Good(names[0], world, files, q);
      }
    }
  }

  /** A name is ruled impossible only if nothing but a rule could have provided it. */
  ghost predicate Fair(world: World, before: Files, after: Files) {
    forall n :: n in after.impossible && n !in before.impossible ==>
      n !in before.known && n !in before.targets && !world.exists_(n) && !world.vpath(n)
  }

  /** How the files may change during a search. */
  ghost predicate Later(world: World, before: Files, after: Files) {
    before.Below(after) && Fair(world, before, after)
  }

  lemma LaterStill(world: World, a: Files, b: Files, c: Files)
    requires Later(world, a, b) && Later(world, b, c)
    ensures Later(world, a, c)
  {
  }

  /** The prerequisites that the file has of its own are mentioned. */
  ghost predicate OwnKnown(q: Query, files: Files) {
    forall n :: n in q.own ==> n in files.known
  }

  /** What is accepted with compatibility rules stays accepted. */
  lemma GoodStays(name: string, world: World, before: Files, after: Files, q: Query)
    requires before.Below(after) && Fair(world, before, after) && q.allowCompat
    requires OwnKnown(q, before) && Good(name, world, before, q)
    ensures Good(name, world, after, q)
  {
  }

  lemma AppliesStays(rules: seq<Rule>, world: World, before: Files, after: Files, inUse: set<nat>, q: Query, r: nat,
        ti: nat)
    requires q.Valid() && before.Below(after) && Fair(world, before, after) && q.allowCompat
    requires OwnKnown(q, before) && Applies(rules, world, before, inUse, q, r, ti)
    ensures Applies(rules, world, after, inUse, q, r, ti)
  {
    if rules[r].deps != [] {
      var names := PrereqsOf(rules, q, r, ti);
      AllAcceptedIff(names, world, before, q);
      AllAcceptedIff(names, world, after, q);
      forall i | 0 <= i < |names| ensures Good(names[i], world, after, q) {
        GoodStays(names[i], world, before, after, q);
      }
    }
  }

  /** If no rule applies later, none applied before. */
  lemma StillNone(rules: seq<Rule>, world: World, before: Files, after: Files, inUse: set<nat>, q: Query)
    requires q.Valid() && Later(world, before, after) && q.allowCompat
    ensures OwnKnown(q, before) && NoneApply(rules, world, after, inUse, q) ==>
      NoneApply(rules, world, before, inUse, q)
  {
    if OwnKnown(q, before) {
      forall r: nat, ti: nat | Applies(rules, world, before, inUse, q, r, ti)
        ensures Applies(rules, world, after, inUse, q, r, ti)
      {
        AppliesStays(rules, world, before, after, inUse, q, r, ti);
      }
    }
  }

  function Compatible(q: Query): Query {
    q.(allowCompat := true)
  }

  /**
   * A rule that does not apply, and of whose prerequisites none called for a compatibility rule, would
   * not apply with one.
   */
  lemma NoBetter(rules: seq<Rule>, world: World, files: Files, inUse: set<nat>, q: Query, r: nat, ti: nat)
    requires q.Valid() && (Candidate(rules, inUse, q, r, ti) && Short(rules, world, q, r, ti) ==>
      rules[r].deps != [] && !AllAccepted(PrereqsOf(rules, q, r, ti), world, files, Compatible(q)))
    ensures !Applies(rules, world, files, inUse, Compatible(q), r, ti)
  {
    var q' := Compatible(q);
    assert Candidate(rules, inUse, q', r, ti) ==> Candidate(rules, inUse, q, r, ti) by {
      SameCandidate(rules, inUse, q, r, ti);
    }
  }

  lemma SameCandidate(rules: seq<Rule>, inUse: set<nat>, q: Query, r: nat, ti: nat)
    requires q.Valid()
    ensures Candidate(rules, inUse, q, r, ti) <==> Candidate(rules, inUse, Compatible(q), r, ti)
  {
    assert forall r', ti' :: Fits(rules, inUse, q, r', ti') == Fits(rules, inUse, Compatible(q), r', ti');
  }

  predicate Short(rules: seq<Rule>, world: World, q: Query, r: nat, ti: nat)
    requires q.Valid() && r < |rules| && ti < |rules[r].targets|
  {
    StemLength(rules, q, r, ti) <= world.pathMax
  }

  /** What is left of the name for the % is no longer than a path may be. */
  lemma ShortIff(rules: seq<Rule>, world: World, inUse: set<nat>, q: Query, r: nat, ti: nat)
    requires q.Valid() && Fits(rules, inUse, q, r, ti)
    ensures Short(rules, world, q, r, ti) <==>
      |q.name| - |rules[r].targets[ti].prefix| - |rules[r].targets[ti].suffix| <= world.pathMax
  {
    StemLengthIs(rules, inUse, q, r, ti);
  }

  /** The least rule leaves the least of the name for the %; of equal ones it is defined first. */
  lemma LeastIs(rules: seq<Rule>, world: World, files: Files, inUse: set<nat>, q: Query, r: nat, ti: nat, r': nat,
        ti': nat)
    requires q.Valid() && Least(rules, world, files, inUse, q, r, ti) && Applies(rules, world, files, inUse, q, r', ti')
    ensures var t, t' := rules[r].targets[ti], rules[r'].targets[ti'];
      var left, left' := |q.name| - |t.prefix| - |t.suffix|, |q.name| - |t'.prefix| - |t'.suffix|;
      left < left' || (left == left' && (r < r' || (r == r' && ti <= ti')))
  {
    StemLengthIs(rules, inUse, q, r, ti);
    StemLengthIs(rules, inUse, q, r', ti');
    if (r', ti') != (r, ti) { assert Before(rules, q, r, ti, r', ti'); }
  }

  /** The prerequisites of the rule are looked for during the first pass, if no rule before it applies. */
  ghost predicate Tried(rules: seq<Rule>, world: World, inUse: set<nat>, q: Query, r: nat, ti: nat)
    requires q.Valid()
  {
    Candidate(rules, inUse, q, r, ti) && Short(rules, world, q, r, ti) && rules[r].deps != []
  }

  /** The rule applies without intermediate files. */
  ghost predicate Applies(rules: seq<Rule>, world: World, files: Files, inUse: set<nat>, q: Query, r: nat, ti: nat)
    requires q.Valid()
  {
    && Candidate(rules, inUse, q, r, ti) && Short(rules, world, q, r, ti)
    && (rules[r].deps != [] ==> AllAccepted(PrereqsOf(rules, q, r, ti), world, files, q))
  }

  ghost predicate NoneApply(rules: seq<Rule>, world: World, files: Files, inUse: set<nat>, q: Query)
    requires q.Valid()
  {
    forall r: nat, ti: nat :: !Applies(rules, world, files, inUse, q, r, ti)
  }

  /** None of the first n tries applies. */
  ghost predicate NoneOf(rules: seq<Rule>, world: World, files: Files, inUse: set<nat>, q: Query, tries: seq<Try>,
        n: nat)
    requires q.Valid() && n <= |tries|
  {
    forall i :: 0 <= i < n ==> !Applies(rules, world, files, inUse, q, tries[i].rule, tries[i].target)
  }

  /** Of the rules that apply, the one with the shortest stem, and of those the one defined first. */
  ghost predicate Least(rules: seq<Rule>, world: World, files: Files, inUse: set<nat>, q: Query, r: nat, ti: nat)
    requires q.Valid()
  {
    && Applies(rules, world, files, inUse, q, r, ti)
    && forall r': nat, ti': nat :: Applies(rules, world, files, inUse, q, r', ti') && (r', ti') != (r, ti) ==>
      Before(rules, q, r, ti, r', ti')
  }

  /** (r, ti) is the last rule with prerequisites that is tried before (r', ti'). */
  ghost predicate LastTried(rules: seq<Rule>, world: World, inUse: set<nat>, q: Query, r: nat, ti: nat, r': nat,
        ti': nat)
    requires q.Valid() && r' < |rules| && ti' < |rules[r'].targets|
  {
    && Tried(rules, world, inUse, q, r, ti) && Before(rules, q, r, ti, r', ti')
    && forall r2: nat, ti2: nat ::
        Tried(rules, world, inUse, q, r2, ti2) && Before(rules, q, r2, ti2, r', ti') && (r2, ti2) != (r, ti) ==>
      Before(rules, q, r2, ti2, r, ti)
  }

  /**
   * A rule without prerequisites is given what the rule tried before it found before it failed;
   * nothing, if no rule with prerequisites was tried before it.
   */
  ghost predicate Leftover(rules: seq<Rule>, world: World, files: Files, inUse: set<nat>, q: Query, r: nat, ti: nat,
        needs: seq<Need>)
    requires q.Valid() && r < |rules| && ti < |rules[r].targets|
  {
    || (needs == [] && forall r': nat, ti': nat ::
          Tried(rules, world, inUse, q, r', ti') ==> !Before(rules, q, r', ti', r, ti))
    || exists r': nat, ti': nat ::
        && LastTried(rules, world, inUse, q, r', ti', r, ti)
        && needs == Accepted(PrereqsOf(rules, q, r', ti'), world, files, q)
  }

  /** The result of the first pass. */
  ghost predicate FirstPass(rules: seq<Rule>, world: World, files: Files, inUse: set<nat>, q: Query, d: Derivation)
    requires q.Valid()
  {
    && Least(rules, world, files, inUse, q, d.rule, d.target)
    && if rules[d.rule].deps != [] then d.needs == Accepted(PrereqsOf(rules, q, d.rule, d.target), world, files, q)
       else Leftover(rules, world, files, inUse, q, d.rule, d.target, d.needs)
  }

  /** The same, by position in the list of rules to try. */
  ghost predicate LeftoverAt(rules: seq<Rule>, world: World, files: Files, inUse: set<nat>, q: Query, tries: seq<Try>,
        n: nat, needs: seq<Need>)
    requires q.Valid() && n <= |tries|
  {
    || (needs == [] && forall i :: 0 <= i < n ==> !Tried(rules, world, inUse, q, tries[i].rule, tries[i].target))
    || exists j ::
        && 0 <= j < n && LastTriedAt(rules, world, inUse, q, tries, n, j)
        && needs == Accepted(PrereqsOf(rules, q, tries[j].rule, tries[j].target), world, files, q)
  }

  ghost predicate LastTriedAt(rules: seq<Rule>, world: World, inUse: set<nat>, q: Query, tries: seq<Try>, n: nat,
        j: nat)
    requires q.Valid() && j < n <= |tries|
  {
    && Tried(rules, world, inUse, q, tries[j].rule, tries[j].target)
    && forall i :: j < i < n ==> !Tried(rules, world, inUse, q, tries[i].rule, tries[i].target)
  }

  /** The entry for a usable rule. */
  lemma Find(rules: seq<Rule>, inUse: set<nat>, q: Query, tries: seq<Try>, r: nat, ti: nat) returns (i: nat)
    requires q.Valid() && Lined(rules, inUse, q, tries) && Usable(rules, inUse, q, r, ti)
    ensures i < |tries| && tries[i].rule == r && tries[i].target == ti
  {
    assert Present(tries, r, ti);
    var t :| t in tries && t.rule == r && t.target == ti;
    i :| 0 <= i < |tries| && tries[i] == t;
  }

  /** The first entry that applies is the least rule that applies. */
  lemma FirstIsLeast(rules: seq<Rule>, world: World, files: Files, inUse: set<nat>, q: Query, tries: seq<Try>, n: nat)
    requires q.Valid() && Lined(rules, inUse, q, tries) && n < |tries|
    requires Applies(rules, world, files, inUse, q, tries[n].rule, tries[n].target)
    requires NoneOf(rules, world, files, inUse, q, tries, n)
    ensures Least(rules, world, files, inUse, q, tries[n].rule, tries[n].target)
  {
    forall r': nat, ti': nat |
      Applies(rules, world, files, inUse, q, r', ti') && (r', ti') != (tries[n].rule, tries[n].target)
      ensures Before(rules, q, tries[n].rule, tries[n].target, r', ti')
    {
      var i := Find(rules, inUse, q, tries, r', ti');
      assert Precedes(rules, q, tries[n], tries[i]);
    }
  }

  lemma NoneApplies(rules: seq<Rule>, world: World, files: Files, inUse: set<nat>, q: Query, tries: seq<Try>)
    requires q.Valid() && Lined(rules, inUse, q, tries)
    requires NoneOf(rules, world, files, inUse, q, tries, |tries|)
    ensures NoneApply(rules, world, files, inUse, q)
  {
    forall r: nat, ti: nat ensures !Applies(rules, world, files, inUse, q, r, ti) {
      if Applies(rules, world, files, inUse, q, r, ti) {
        var i := Find(rules, inUse, q, tries, r, ti);
      }
    }
  }

  lemma NoneAppliesCompatibly(rules: seq<Rule>, world: World, files: Files, inUse: set<nat>, q: Query, tries: seq<Try>)
    requires q.Valid() && Lined(rules, inUse, q, tries)
    requires NoneOf(rules, world, files, inUse, Compatible(q), tries, |tries|)
    ensures NoneApply(rules, world, files, inUse, Compatible(q))
  {
    forall r: nat, ti: nat ensures !Applies(rules, world, files, inUse, Compatible(q), r, ti) {
      SameCandidate(rules, inUse, q, r, ti);
      if Candidate(rules, inUse, q, r, ti) {
        var i := Find(rules, inUse, q, tries, r, ti);
      }
    }
  }

  /** Earlier in the list is Before. */
  lemma BeforeIsIndex(rules: seq<Rule>, inUse: set<nat>, q: Query, tries: seq<Try>, i: nat, j: nat)
    requires q.Valid() && Lined(rules, inUse, q, tries) && i < |tries| && j < |tries|
    ensures Precedes(rules, q, tries[i], tries[j]) <==> i < j
  {
    assert tries[i] in tries && tries[j] in tries;
    if i < j {
      assert Precedes(rules, q, tries[i], tries[j]);
    } else if j < i {
      assert Precedes(rules, q, tries[j], tries[i]);
    }
  }

  lemma LastTriedByIndex(rules: seq<Rule>, world: World, inUse: set<nat>, q: Query, tries: seq<Try>, n: nat, j: nat)
    requires q.Valid() && Lined(rules, inUse, q, tries) && j < n < |tries|
    requires LastTriedAt(rules, world, inUse, q, tries, n, j)
    requires Usable(rules, inUse, q, tries[n].rule, tries[n].target)
    ensures LastTried(rules, world, inUse, q, tries[j].rule, tries[j].target, tries[n].rule, tries[n].target)
  {
    BeforeIsIndex(rules, inUse, q, tries, j, n);
    forall r: nat, ti: nat |
      && Tried(rules, world, inUse, q, r, ti) && Before(rules, q, r, ti, tries[n].rule, tries[n].target)
      && (r, ti) != (tries[j].rule, tries[j].target)
      ensures Before(rules, q, r, ti, tries[j].rule, tries[j].target)
    {
      var i := Find(rules, inUse, q, tries, r, ti);
      BeforeIsIndex(rules, inUse, q, tries, i, n);
      BeforeIsIndex(rules, inUse, q, tries, i, j);
    }
  }

  lemma NoneTriedByIndex(rules: seq<Rule>, world: World, inUse: set<nat>, q: Query, tries: seq<Try>, n: nat)
    requires q.Valid() && Lined(rules, inUse, q, tries) && n < |tries|
    requires Usable(rules, inUse, q, tries[n].rule, tries[n].target)
    requires forall i :: 0 <= i < n ==> !Tried(rules, world, inUse, q, tries[i].rule, tries[i].target)
    ensures forall r: nat, ti: nat :: Tried(rules, world, inUse, q, r, ti) ==>
      !Before(rules, q, r, ti, tries[n].rule, tries[n].target)
  {
    forall r: nat, ti: nat | Tried(rules, world, inUse, q, r, ti)
        ensures !Before(rules, q, r, ti, tries[n].rule, tries[n].target)
      {
      var i := Find(rules, inUse, q, tries, r, ti);
      BeforeIsIndex(rules, inUse, q, tries, i, n);
    }
  }

  lemma LeftoverByIndex(rules: seq<Rule>, world: World, files: Files, inUse: set<nat>, q: Query, tries: seq<Try>,
        n: nat, needs: seq<Need>)
    requires q.Valid() && Lined(rules, inUse, q, tries) && n < |tries|
    requires LeftoverAt(rules, world, files, inUse, q, tries, n, needs)
    requires Usable(rules, inUse, q, tries[n].rule, tries[n].target)
    ensures Leftover(rules, world, files, inUse, q, tries[n].rule, tries[n].target, needs)
  {
    if j :| && 0 <= j < n && LastTriedAt(rules, world, inUse, q, tries, n, j)
            && needs == Accepted(PrereqsOf(rules, q, tries[j].rule, tries[j].target), world, files, q) {
      LastTriedByIndex(rules, world, inUse, q, tries, n, j);
    } else {
      NoneTriedByIndex(rules, world, inUse, q, tries, n);
    }
  }

  /** The first pass has looked at n entries, none of which applies, and pat is what the last one tried has found. */
  ghost predicate Passed(rules: seq<Rule>, world: World, files: Files, inUse: set<nat>, q: Query, tries: seq<Try>,
        n: nat, pat: seq<Need>)
    requires q.Valid() && n <= |tries|
  {
    && LeftoverAt(rules, world, files, inUse, q, tries, n, pat)
    && NoneOf(rules, world, files, inUse, q, tries, n)
  }

  lemma Skipped(rules: seq<Rule>, world: World, files: Files, inUse: set<nat>, q: Query, tries: seq<Try>, n: nat,
        pat: seq<Need>)
    requires q.Valid() && n < |tries| && Passed(rules, world, files, inUse, q, tries, n, pat)
    requires Candidate(rules, inUse, q, tries[n].rule, tries[n].target) ==>
      !Short(rules, world, q, tries[n].rule, tries[n].target)
    ensures Passed(rules, world, files, inUse, q, tries, n + 1, pat)
  {
    assert !Tried(rules, world, inUse, q, tries[n].rule, tries[n].target);
    assert !Applies(rules, world, files, inUse, q, tries[n].rule, tries[n].target);
    LeftoverStays(rules, world, files, inUse, q, tries, n, pat);
  }

  lemma LeftoverStays(rules: seq<Rule>, world: World, files: Files, inUse: set<nat>, q: Query, tries: seq<Try>, n: nat,
        pat: seq<Need>)
    requires q.Valid() && n < |tries| && LeftoverAt(rules, world, files, inUse, q, tries, n, pat)
    requires !Tried(rules, world, inUse, q, tries[n].rule, tries[n].target)
    ensures LeftoverAt(rules, world, files, inUse, q, tries, n + 1, pat)
  {
    if j :| && 0 <= j < n && LastTriedAt(rules, world, inUse, q, tries, n, j)
            && pat == Accepted(PrereqsOf(rules, q, tries[j].rule, tries[j].target), world, files, q) {
      StillLast(rules, world, inUse, q, tries, n, j);
    }
  }

  lemma StillLast(rules: seq<Rule>, world: World, inUse: set<nat>, q: Query, tries: seq<Try>, n: nat, j: nat)
    requires q.Valid() && j < n < |tries| && LastTriedAt(rules, world, inUse, q, tries, n, j)
    requires !Tried(rules, world, inUse, q, tries[n].rule, tries[n].target)
    ensures LastTriedAt(rules, world, inUse, q, tries, n + 1, j)
  {
  }

  lemma TriedInVain(rules: seq<Rule>, world: World, files: Files, inUse: set<nat>, q: Query, tries: seq<Try>, n: nat,
        pat: seq<Need>)
    requires q.Valid() && n < |tries| && Tried(rules, world, inUse, q, tries[n].rule, tries[n].target)
    requires !AllAccepted(PrereqsOf(rules, q, tries[n].rule, tries[n].target), world, files, q)
    requires Passed(rules, world, files, inUse, q, tries, n, pat)
    ensures Passed(rules, world, files, inUse, q, tries, n + 1,
      Accepted(PrereqsOf(rules, q, tries[n].rule, tries[n].target), world, files, q))
  {
    assert LastTriedAt(rules, world, inUse, q, tries, n + 1, n);
  }

  lemma LeftoverHolds(rules: seq<Rule>, world: World, files: Files, inUse: set<nat>, used: set<nat>, q: Query,
        tries: seq<Try>, n: nat, pat: seq<Need>)
    requires q.Valid() && n <= |tries| && LeftoverAt(rules, world, files, inUse, q, tries, n, pat)
    ensures NeedsHold(rules, world, files, used, q, q.allowCompat, pat) && NoneMade(pat)
  {
    if j :| && 0 <= j < n && LastTriedAt(rules, world, inUse, q, tries, n, j)
            && pat == Accepted(PrereqsOf(rules, q, tries[j].rule, tries[j].target), world, files, q) {
      AcceptedHold(rules, world, files, used, q, PrereqsOf(rules, q, tries[j].rule, tries[j].target));
    }
  }

  /** The first k names have been accepted. */
  ghost predicate Accepting(names: seq<string>, k: nat, needs: seq<Need>, world: World, files: Files, q: Query)
    requires k <= |names|
  {
    Accepted(names, world, files, q) == needs + Accepted(names[k..], world, files, q)
  }

  lemma AcceptingNext(names: seq<string>, k: nat, needs: seq<Need>, world: World, files: Files, q: Query)
    requires k < |names| && Accepting(names, k, needs, world, files, q)
    ensures names[k] in files.impossible || Accept(names[k], world, files, q.own, q.allowCompat).None? ==>
      Accepted(names, world, files, q) == needs
    ensures names[k] !in files.impossible && Accept(names[k], world, files, q.own, q.allowCompat).Some? ==>
      Accepting(names, k + 1,
      needs + [Known(names[k], Accept(names[k], world, files, q.own, q.allowCompat).value)], world, files, q)
  {
    assert names[k..][1..] == names[k + 1..];
  }

  lemma Longer(names: seq<string>, k: nat, needs: seq<Need>, n: Need)
    requires k < |names| && NeedNames(needs) == names[..k] && n.name == names[k]
    ensures NeedNames(needs + [n]) == names[..k + 1]
  {
    assert (needs + [n])[..|needs|] == needs;
  }

  class Searcher {
    const rules: seq<Rule>
    const world: World
    var files: Files
    var inUse: set<nat>

    /** Termination measure: the rules a nested search may still use. */
    ghost function Unused(): set<nat>
      reads this`inUse
    {
      set r: nat | r < |rules| && r !in inUse
    }

    constructor (rules: seq<Rule>, world: World, files: Files)
      ensures this.rules == rules && this.world == world && this.files == files && inUse == {}
    {
      this.rules, this.world, this.files, inUse := rules, world, files, {};
    }

    /**
     * Find each prerequisite of a rule that is in use; noted says that only the compatibility rule would
     * accept one.
     */
    method TryPrereqs(q: Query, names: seq<string>, intermedOk: bool)
      returns (ok: bool, needs: seq<Need>, impossible: bool, noted: bool)
      requires q.Valid()
      modifies this
      ensures inUse == old(inUse) && Later(world, old(files), files)
      ensures NeedsHold(rules, world, files, inUse, q, q.allowCompat, needs)
      ensures ok ==> NeedNames(needs) == names
      ensures noted ==> !q.allowCompat
      ensures !intermedOk ==> files == old(files) && needs == Accepted(names, world, files, q)
      ensures !intermedOk ==> (ok <==> AllAccepted(names, world, files, q)) && (ok ==> !impossible)
      ensures !intermedOk && !ok && !noted ==> !AllAccepted(names, world, files, Compatible(q))
      decreases Unused(), 10
    {
      ok, needs, impossible, noted := false, [], false, false;
      var k := 0;
      while k < |names|
        invariant k == |needs| <= |names|
        invariant NeedNames(needs) == names[..k]
        invariant inUse == old(inUse) && Later(world, old(files), files)
        invariant NeedsHold(rules, world, files, inUse, q, q.allowCompat, needs)
        invariant noted ==> !q.allowCompat
        invariant !intermedOk ==> files == old(files) && Accepting(names, k, needs, world, files, q)
      {
        var name := names[k];
        if !intermedOk { AcceptingNext(names, k, needs, world, files, q); }
        AllAcceptedIff(names, world, files, Compatible(q));
        if name in files.impossible {
          impossible := true;
          return;
        }
        ghost var before := files;
        var r, noted' := TryPrereq(q, name, intermedOk);
        LaterStill(world, old(files), before, files);
        NeedsStay(rules, world, before, files, inUse, q, q.allowCompat, needs);
        noted := noted || noted';
        if r.None? { return; }
        Longer(names, k, needs, r.value);
        needs := needs + [r.value];
        k := k + 1;
      }
      assert names[..k] == names;
      ok := true;
    }

    method TryPrereq(q: Query, name: string, intermedOk: bool) returns (r: Option<Need>, noted: bool)
      requires q.Valid() && name !in files.impossible
      modifies this
      ensures inUse == old(inUse) && Later(world, old(files), files)
      ensures r.Some? ==> r.value.name == name && NeedHolds(rules, world, files, inUse, q, q.allowCompat, r.value)
      ensures noted ==> !q.allowCompat
      ensures !intermedOk ==> files == old(files) && (r.None? && !noted ==> !Good(name, world, files, Compatible(q)))
      ensures !intermedOk ==>
        var why := Accept(name, world, files, q.own, q.allowCompat);
        r == if why.None? then None else Some(Known(name, why.value))
      decreases Unused(), 9
    {
      var mentioned := name in files.known;
      noted := mentioned && !q.allowCompat && name !in files.targets && name !in q.own && !world.exists_(name);
      var why := Accept(name, world, files, q.own, q.allowCompat);
      if why.Some? { return Some(Known(name, why.value)), noted; }
      r := None;
      if intermedOk {
        var d := Search(Intermediate(world, name, q.allowCompat));
        if d.Some? {
          var q', q'' := Intermediate(world, name, q.allowCompat), Intermediate(world, name, false);
          SoundAnyway(rules, world, files, inUse, q', q'', d.value);
          return Some(Made(name, d.value)), noted;
        }
        if !mentioned {
          files := files.(impossible := files.impossible + {name});
          assert Later(world, old(files), files);
        }
      }
    }

    /** Try one rule with prerequisites: it is in use while they are looked for. */
    method TryRule(q: Query, r: nat, ti: nat, intermedOk: bool)
      returns (ok: bool, needs: seq<Need>, impossible: bool, noted: bool)
      requires q.Valid() && Usable(rules, inUse, q, r, ti) && rules[r].deps != []
      requires intermedOk ==> !rules[r].terminal
      modifies this
      ensures inUse == old(inUse) && Later(world, old(files), files)
      ensures ok ==> Chosen(rules, world, files, inUse, q, Derive(q, r, ti, needs))
      ensures noted ==> !q.allowCompat
      ensures !intermedOk ==> files == old(files) && needs == Accepted(PrereqsOf(rules, q, r, ti), world, files, q)
      ensures !intermedOk ==> (ok <==> AllAccepted(PrereqsOf(rules, q, r, ti), world, files, q))
      ensures !intermedOk && !ok && !noted ==> !AllAccepted(PrereqsOf(rules, q, r, ti), world, files, Compatible(q))
      decreases Unused(), if q.allowCompat then 3 else 6
    {
      var before := inUse;
      inUse := inUse + {r};
      assert r in old(Unused()) && r !in Unused();
      ok, needs, impossible, noted := TryPrereqs(q, PrereqsOf(rules, q, r, ti), intermedOk);
      inUse := inUse - {r};
      assert inUse == before && inUse + {r} == before + {r};
      StemRebuilds(rules[r].targets[ti], q.name, q.pathlen, Stem(rules[r].targets[ti], q.name, q.pathlen).value);
      if !intermedOk {
        AcceptedHold(rules, world, files, inUse + {r}, q, PrereqsOf(rules, q, r, ti));
      }
    }

    /** The derivation by target ti of rule r. */
    function Derive(q: Query, r: nat, ti: nat, needs: seq<Need>): Derivation
      requires q.Valid() && r < |rules| && ti < |rules[r].targets|
      requires Stem(rules[r].targets[ti], q.name, q.pathlen).Some?
    {
      var t := rules[r].targets[ti];
      Derivation(r, ti, Directory(t, q.name, q.pathlen), Stem(t, q.name, q.pathlen).value, q.allowCompat, needs)
    }

    /** If the rule is tried it has prerequisites. */
    ghost predicate WithDeps(q: Query, t: Try)
      requires q.Valid()
    {
      t.live && t.rule < |rules| && t.target < |rules[t.rule].targets| && Short(rules, world, q, t.rule, t.target) ==>
        rules[t.rule].deps != []
    }

    ghost predicate AllWithDeps(q: Query, tries: seq<Try>, n: nat)
      requires q.Valid() && n <= |tries|
    {
      forall i :: 0 <= i < n ==> WithDeps(q, tries[i])
    }

    /** One pass over the rules; the marks of tries change only when a prerequisite is impossible. */
    method Pass(q: Query, tries: seq<Try>, intermedOk: bool)
      returns (found: Option<Derivation>, marked: seq<Try>, noted: bool)
      requires q.Valid() && Lined(rules, inUse, q, tries)
      requires if intermedOk then AllWithDeps(q, tries, |tries|) else Prepared(rules, inUse, q, tries)
      modifies this
      ensures inUse == old(inUse) && Later(world, old(files), files)
      ensures found.Some? ==> Chosen(rules, world, files, inUse, q, found.value)
      ensures noted ==> !q.allowCompat
      ensures !intermedOk ==> files == old(files)
      ensures !intermedOk && found.Some? ==> FirstPass(rules, world, files, inUse, q, found.value)
      ensures !intermedOk && found.None? ==> NoneApply(rules, world, files, inUse, q)
      ensures !intermedOk && found.None? ==> Lined(rules, inUse, q, marked) && AllWithDeps(q, marked, |marked|)
      ensures !intermedOk && found.None? && !noted ==> NoneApply(rules, world, files, inUse, Compatible(q))
      decreases Unused(), if q.allowCompat then 4 else 7, 1
    {
      found, marked, noted := None, tries, false;
      var pat: seq<Need> := [];
      var ri := 0;
      while ri < |tries|
        invariant 0 <= ri <= |tries| && found.None? && Marks(tries, marked)
        invariant inUse == old(inUse) && Later(world, old(files), files) && (noted ==> !q.allowCompat)
        invariant !intermedOk ==> AllWithDeps(q, tries, ri)
        invariant !intermedOk ==> files == old(files) && Passed(rules, world, files, inUse, q, tries, ri, pat)
        invariant !intermedOk && !noted ==> NoneOf(rules, world, files, inUse, Compatible(q), tries, ri)
      {
        ghost var before := files;
        var impossible, n;
        found, pat, impossible, n := Attempt(q, tries, ri, pat, intermedOk);
        LaterStill(world, old(files), before, files);
        noted := noted || n;
        if found.Some? { return; }
        if impossible {
          marked := Strike(tries, marked, ri);
        }
        ri := ri + 1;
      }
      if !intermedOk {
        NoneApplies(rules, world, files, inUse, q, tries);
        if !noted { NoneAppliesCompatibly(rules, world, files, inUse, q, tries); }
        MarksAreKept(q, tries, marked);
      }
    }

    /** A list with tries struck off is as good for the second pass. */
    lemma MarksAreKept(q: Query, tries: seq<Try>, marked: seq<Try>)
      requires q.Valid() && Lined(rules, inUse, q, tries) && Marks(tries, marked) && AllWithDeps(q, tries, |tries|)
      ensures Lined(rules, inUse, q, marked) && AllWithDeps(q, marked, |marked|)
    {
      MarkedIsLined(rules, inUse, q, tries, marked);
      forall i | 0 <= i < |marked| ensures WithDeps(q, marked[i]) {
        assert WithDeps(q, tries[i]);
      }
    }

    /** One entry of the list. */
    method Attempt(q: Query, tries: seq<Try>, ri: nat, pat: seq<Need>, intermedOk: bool)
      returns (found: Option<Derivation>, pat': seq<Need>, impossible: bool, noted: bool)
      requires q.Valid() && Lined(rules, inUse, q, tries) && ri < |tries|
      requires if intermedOk then AllWithDeps(q, tries, |tries|)
        else Prepared(rules, inUse, q, tries) && Passed(rules, world, files, inUse, q, tries, ri, pat)
      modifies this
      ensures inUse == old(inUse) && Later(world, old(files), files)
      ensures found.Some? ==> Chosen(rules, world, files, inUse, q, found.value)
      ensures noted ==> !q.allowCompat
      ensures !intermedOk ==> files == old(files)
      ensures !intermedOk && found.Some? ==> FirstPass(rules, world, files, inUse, q, found.value)
      ensures !intermedOk && found.None? ==>
        Passed(rules, world, files, inUse, q, tries, ri + 1, pat') && WithDeps(q, tries[ri])
      ensures !intermedOk && found.None? && !noted ==>
        !Applies(rules, world, files, inUse, Compatible(q), tries[ri].rule, tries[ri].target)
      decreases Unused(), if q.allowCompat then 4 else 7, 0
    {
      found, pat', impossible, noted := None, pat, false, false;
      var t := tries[ri];
      assert Proper(rules, inUse, q, t);
      if t.live && !(intermedOk && rules[t.rule].terminal) && Short(rules, world, q, t.rule, t.target) {
        if rules[t.rule].deps == [] {
          Take(q, tries, ri, pat);
          found := Some(Derive(q, t.rule, t.target, pat));
          return;
        }
        var ok;
        ok, pat', impossible, noted := TryRule(q, t.rule, t.target, intermedOk);
        if ok {
          if !intermedOk { FirstIsLeast(rules, world, files, inUse, q, tries, ri); }
          found := Some(Derive(q, t.rule, t.target, pat'));
          return;
        }
        if !intermedOk { TriedInVain(rules, world, files, inUse, q, tries, ri, pat); }
      } else if !intermedOk {
        Skipped(rules, world, files, inUse, q, tries, ri, pat);
      }
      if !intermedOk && !noted { NoBetter(rules, world, files, inUse, q, t.rule, t.target); }
    }

    /** A rule without prerequisites is taken when the first pass comes to it. */
    lemma Take(q: Query, tries: seq<Try>, n: nat, pat: seq<Need>)
      requires q.Valid() && Lined(rules, inUse, q, tries) && n < |tries|
      requires Candidate(rules, inUse, q, tries[n].rule, tries[n].target)
      requires Short(rules, world, q, tries[n].rule, tries[n].target)
      requires rules[tries[n].rule].deps == []
      requires Passed(rules, world, files, inUse, q, tries, n, pat)
      ensures Chosen(rules, world, files, inUse, q, Derive(q, tries[n].rule, tries[n].target, pat))
      ensures FirstPass(rules, world, files, inUse, q, Derive(q, tries[n].rule, tries[n].target, pat))
    {
      var r, ti := tries[n].rule, tries[n].target;
      StemRebuilds(rules[r].targets[ti], q.name, q.pathlen, Stem(rules[r].targets[ti], q.name, q.pathlen).value);
      LeftoverHolds(rules, world, files, inUse, inUse + {r}, q, tries, n, pat);
      FirstIsLeast(rules, world, files, inUse, q, tries, n);
      LeftoverByIndex(rules, world, files, inUse, q, tries, n, pat);
    }

    /**
     * Enter the files of the rule that was found: intermediate files become targets, and so do the
     * rule's other targets.
     */
    method Commit(q: Query, d: Derivation)
      requires Chosen(rules, world, files, inUse, q, d)
      modifies this`files
      ensures Later(world, old(files), files) && Sound(rules, world, files, inUse, q, d)
    {
      var i := |d.needs|;
      while i > 0
        invariant 0 <= i <= |d.needs| && Later(world, old(files), files)
        invariant forall j :: i <= j < |d.needs| && d.needs[j].Made? ==> d.needs[j].name in files.targets
      {
        i := i - 1;
        EnterNeed(d.needs[i], q.nested);
      }
      EnterAlsoMade(d);
      ChosenStays(rules, world, old(files), files, inUse, q, d);
    }

    method EnterNeed(n: Need, nested: bool)
      modifies this`files
      ensures Later(world, old(files), files) && (n.Made? ==> n.name in files.targets)
    {
      if n.Made? {
        var deps := NeedNames(n.how.needs);
        files := files.(known := files.known + {n.name} + (set x | x in deps), targets := files.targets + {n.name});
      }
      if !nested {
        files := files.(known := files.known + {n.name});
      }
    }

    method EnterAlsoMade(d: Derivation)
      requires d.rule < |rules|
      modifies this`files
      ensures Later(world, old(files), files)
      ensures forall ti :: 0 <= ti < |rules[d.rule].targets| && ti != d.target ==> AlsoMade(d, ti) in files.targets
    {
      for ti := 0 to |rules[d.rule].targets|
        invariant Later(world, old(files), files)
        invariant forall i :: 0 <= i < ti && i != d.target ==> AlsoMade(d, i) in files.targets
      {
        if ti != d.target {
          var name := AlsoMade(d, ti);
          files := files.(known := files.known + {name}, targets := files.targets + {name});
        }
      }
    }

    /** The name of another target of the rule: the directory goes with the stem. */
    function AlsoMade(d: Derivation, ti: nat): string
      requires d.rule < |rules| && ti < |rules[d.rule].targets|
    {
      var t := rules[d.rule].targets[ti];
      t.prefix + d.dir + d.stem + t.suffix
    }

    /**
     * It is the name in the directory that was set aside, and so for the target that was matched the
     * name of the file, if and only if no directory was set aside or the target has nothing before
     * the %.
     */
    lemma AlsoMadeIff(d: Derivation, ti: nat)
      requires d.rule < |rules| && ti < |rules[d.rule].targets|
      requires d.dir != "" ==> d.dir[|d.dir| - 1] == '/' && '/' !in rules[d.rule].targets[ti].prefix
      ensures var t := rules[d.rule].targets[ti];
        AlsoMade(d, ti) == d.dir + t.prefix + d.stem + t.suffix <==> d.dir == "" || t.prefix == ""
    {
      var t := rules[d.rule].targets[ti];
      Commute(d.dir, t.prefix, d.stem + t.suffix);
      assert t.prefix + d.dir + d.stem + t.suffix == (t.prefix + d.dir) + (d.stem + t.suffix);
      assert d.dir + t.prefix + d.stem + t.suffix == (d.dir + t.prefix) + (d.stem + t.suffix);
    }

    /** For d/libx.a and the other target lib%.so it is libd/x.so. */
    lemma LibraryExample(d: Derivation, ti: nat)
      requires d.rule < |rules| && ti < |rules[d.rule].targets| && rules[d.rule].targets[ti] == Target("lib", ".so")
      requires d.dir == "d/" && d.stem == "x"
      ensures AlsoMade(d, ti) == "libd/x.so"
    {
      assert "lib" + "d/" + "x" + ".so" == "libd/x.so";
    }

    /**
     * pattern_search. It ends on every set of rules, with the rules in use as they were; what it
     * finds is sound; and when a rule applies without intermediate files, it finds the least
     * such rule.
     */
    method Search(q: Query) returns (r: Option<Derivation>)
      requires q.Valid()
      modifies this
      ensures inUse == old(inUse) && Later(world, old(files), files)
      ensures r.Some? ==> Sound(rules, world, files, inUse, q, r.value)
      ensures !NoneApply(rules, world, old(files), inUse, q) ==>
        r.Some? && FirstPass(rules, world, old(files), inUse, q, r.value)
      ensures r.None? && OwnKnown(q, old(files)) ==> NoneApply(rules, world, old(files), inUse, Compatible(q))
      decreases Unused(), if q.allowCompat then 5 else 8
    {
      var tries := Prepare(rules, inUse, q);
      var noted, noted2 := false, false;
      r, tries, noted := Pass(q, tries, false);
      if r.None? {
        r, tries, noted2 := Pass(q, tries, true);
      }
      ghost var before := files;
      if r.Some? {
        Commit(q, r.value);
        LaterStill(world, old(files), before, files);
      } else if noted || noted2 {
        assert !q.allowCompat;
        r := Search(Compatible(q));
        LaterStill(world, old(files), before, files);
        if r.Some? {
          SoundAnyway(rules, world, files, inUse, Compatible(q), q, r.value);
        } else {
          StillNone(rules, world, old(files), before, inUse, Compatible(q));
        }
      }
    }

    /**
     * try_implicit_rule: first by the whole name, then, for an archive member that no rule was
     * found for, by the member's name.
     */
    method TryImplicitRule(file: string, own: seq<string>) returns (r: Option<Derivation>, q: Query)
      requires inUse == {}
      modifies this
      ensures inUse == {} && Later(world, old(files), files)
      ensures q == Whole(file, own) || (world.archive(file) && q == Member(file, own))
      ensures r.Some? ==> Sound(rules, world, files, {}, q, r.value) && file in files.targets
      ensures !NoneApply(rules, world, old(files), {}, Whole(file, own)) ==>
        q == Whole(file, own) && r.Some? && FirstPass(rules, world, old(files), {}, q, r.value)
      ensures q != Whole(file, own) && OwnKnown(q, old(files)) ==>
        NoneApply(rules, world, old(files), {}, Compatible(Whole(file, own)))
      ensures r.None? && OwnKnown(q, old(files)) ==> NoneApply(rules, world, old(files), {}, Compatible(q))
      ensures r.None? && world.archive(file) ==> q == Member(file, own)
    {
      q := Whole(file, own);
      r := Search(q);
      if r.None? && world.archive(file) {
        q := Member(file, own);
        r := SearchAgain(q, old(files));
      }
      if r.Some? {
        ghost var before := files;
        files := files.(targets := files.targets + {file});
        SoundStays(rules, world, before, files, {}, q, r.value);
      }
    }

    /** What a later search does not find was not to be found at first. */
    method SearchAgain(q: Query, ghost first: Files) returns (r: Option<Derivation>)
      requires q.Valid() && inUse == {} && Later(world, first, files)
      modifies this
      ensures inUse == {} && Later(world, first, files)
      ensures r.Some? ==> Sound(rules, world, files, {}, q, r.value)
      ensures r.None? && OwnKnown(q, first) ==> NoneApply(rules, world, first, {}, Compatible(q))
    {
      r := Search(q);
      LaterStill(world, first, old(files), files);
      StillNone(rules, world, first, old(files), {}, Compatible(q));
    }

    function Whole(file: string, own: seq<string>): (q: Query)
      ensures q.Valid() && q == Query(file, q.pathlen, own, false, false)
      ensures if world.archive(file) then q.pathlen == 0 else DirectoryEnds(file, q.pathlen)
    {
      Query(file, PathLength(file, world.archive(file)), own, false, false)
    }

    function Member(file: string, own: seq<string>): (q: Query)
      ensures q.Valid() && q.pathlen == 0 && q.own == own && !q.nested && !q.allowCompat
      ensures q.name != "" ==> q.name[0] == '('
      ensures exists k :: 0 <= k <= |file| && '(' !in file[..k] && q.name == file[k..]
    {
      Query(MemberName(file, 0), 0, own, false, false)
    }
  }

  /** The list is the same but for tries that are not live any more. */
  ghost predicate Marks(tries: seq<Try>, marked: seq<Try>) {
    && |tries| == |marked|
    && (forall i :: 0 <= i < |tries| ==> marked[i] == tries[i].(live := marked[i].live))
    && (forall i :: 0 <= i < |tries| && marked[i].live ==> tries[i].live)
  }

  /** A try with an impossible prerequisite is struck off the list. */
  function Strike(ghost tries: seq<Try>, marked: seq<Try>, ri: nat): (r: seq<Try>)
    requires Marks(tries, marked) && ri < |marked|
    ensures Marks(tries, r) && !r[ri].live
  {
    marked[ri := marked[ri].(live := false)]
  }

  /** The rest of the name from its first parenthesis on. */
  function MemberName(file: string, i: nat): (name: string)
    requires i <= |file|
    ensures name != "" ==> name[0] == '('
    ensures |name| <= |file| - i && file[|file| - |name|..] == name && '(' !in file[i..|file| - |name|]
    decreases |file| - i
  {
    if i == |file| || file[i] == '(' then file[i..] else MemberName(file, i + 1)
  }

  lemma Commute(dir: string, prefix: string, rest: string)
    requires dir != "" ==> dir[|dir| - 1] == '/' && '/' !in prefix
    ensures (prefix + dir) + rest == (dir + prefix) + rest <==> dir == "" || prefix == ""
  {
    if dir == "" || prefix == "" {
      assert prefix + dir == dir + prefix;
    } else {
      var n := |dir| + |prefix| - 1;
      assert ((prefix + dir) + rest)[n] == '/';
      assert ((dir + prefix) + rest)[n] == prefix[|prefix| - 1];
    }
  }

  /** Down a chain of intermediate files no rule with prerequisites comes back. */
  ghost function RulesOf(d: Derivation): set<nat>
    decreases d, 0
  {
    {d.rule} + set i, r | 0 <= i < |d.needs| && r in NeedRules(d.needs[i]) :: r
  }

  ghost function NeedRules(n: Need): set<nat>
    decreases n
  {
    if n.Made? then RulesOf(n.how) else {}
  }

  lemma {:induction false} NoRuleTwice(rules: seq<Rule>, world: World, files: Files, used: set<nat>, q: Query,
        d: Derivation)
    requires Sound(rules, world, files, used, q, d)
    ensures RulesOf(d) !! used
    ensures forall i :: 0 <= i < |d.needs| ==> d.rule !in NeedRules(d.needs[i])
    decreases d
  {
    forall i | 0 <= i < |d.needs| ensures NeedRules(d.needs[i]) !! used + {d.rule} {
      var n := d.needs[i];
      assert NeedHolds(rules, world, files, used + {d.rule}, q, d.compat, n);
      if n.Made? {
        NoRuleTwice(rules, world, files, used + {d.rule}, Intermediate(world, n.name, false), n.how);
      }
    }
  }

  /**
   * A rule without prerequisites gets none exactly when the rule tried last before it had no
   * prerequisite accepted, or no rule with prerequisites was tried before it.
   */
  lemma LeftoverEmptyIff(rules: seq<Rule>, world: World, files: Files, inUse: set<nat>, q: Query, d: Derivation)
    requires q.Valid() && FirstPass(rules, world, files, inUse, q, d) && rules[d.rule].deps == []
    ensures d.needs == [] <==> forall r: nat, ti: nat :: LastTried(rules, world, inUse, q, r, ti, d.rule, d.target) ==>
      Accepted(PrereqsOf(rules, q, r, ti), world, files, q) == []
  {
    if r', ti' :| && LastTried(rules, world, inUse, q, r', ti', d.rule, d.target)
                  && d.needs == Accepted(PrereqsOf(rules, q, r', ti'), world, files, q) {
      forall r: nat, ti: nat | LastTried(rules, world, inUse, q, r, ti, d.rule, d.target) ensures r == r' && ti == ti' {
      }
    }
  }

  /** %o: c y and %o: without prerequisites, both with commands. */
  const LEFTOVER_RULES: seq<Rule> := [
    Rule([Target("", "o")], [Word("c"), Word("y")], true, false),
    Rule([Target("", "o")], [], true, false)]

  const ONLY_C := World((name: string) => name == "c", name => false, name => false, 100)

  lemma TwoRules(r: nat, ti: nat)
    ensures Fits(LEFTOVER_RULES, {}, XO, r, ti) <==> r < 2 && ti == 0
    ensures Candidate(LEFTOVER_RULES, {}, XO, r, ti) <==> r < 2 && ti == 0
  {
    if r < 2 && ti == 0 {
      assert XO.name[1..] == "o";
      assert Stem(Target("", "o"), "xo", 0).Some?;
      assert LEFTOVER_RULES[r].targets == [Target("", "o")];
    }
  }

  const XO := Query("xo", 0, [], false, false)

  const NOTHING := Files({}, {}, {})

  /** The first rule finds c and then fails; the second one applies. */
  lemma OnlyTheSecond()
    ensures Tried(LEFTOVER_RULES, ONLY_C, {}, XO, 0, 0)
    ensures PrereqsOf(LEFTOVER_RULES, XO, 0, 0) == ["c", "y"]
    ensures Accepted(["c", "y"], ONLY_C, NOTHING, XO) == [Known("c", Exists)]
    ensures !Applies(LEFTOVER_RULES, ONLY_C, NOTHING, {}, XO, 0, 0)
    ensures Applies(LEFTOVER_RULES, ONLY_C, NOTHING, {}, XO, 1, 0)
  {
    TwoRules(0, 0);
    TwoRules(1, 0);
    var stem := Stem(Target("", "o"), "xo", 0).value;
    assert PercentAt("c", 0) == 1 && PercentAt("y", 0) == 1;
    assert [Word("c"), Word("y")][1..] == [Word("y")] && [Word("y")][1..] == [];
    assert Prereqs([Word("y")], "", stem) == ["y"];
    assert ["c", "y"][1..] == ["y"];
    assert Accept("y", ONLY_C, NOTHING, [], false) == None;
    assert Accepted(["y"], ONLY_C, NOTHING, XO) == [];
  }

  lemma LeftoverChoice(d: Derivation)
    requires FirstPass(LEFTOVER_RULES, ONLY_C, NOTHING, {}, XO, d)
    ensures d.rule == 1 && d.needs == [Known("c", Exists)]
  {
    OnlyTheSecond();
    TwoRules(d.rule, d.target);
    assert Before(LEFTOVER_RULES, XO, 0, 0, 1, 0);
    var r', ti' :|
      && LastTried(LEFTOVER_RULES, ONLY_C, {}, XO, r', ti', 1, 0)
      && d.needs == Accepted(PrereqsOf(LEFTOVER_RULES, XO, r', ti'), ONLY_C, NOTHING, XO);
    TwoRules(r', ti');
  }

  /** Where only c exists, xo is made by the rule without prerequisites, and yet is given c as its prerequisite. */
  method LeftoverExample() returns (d: Derivation)
    ensures d.rule == 1 && LEFTOVER_RULES[1].deps == [] && d.needs == [Known("c", Exists)]
  {
    var searcher := new Searcher(LEFTOVER_RULES, ONLY_C, NOTHING);
    OnlyTheSecond();
    var r := searcher.Search(XO);
    d := r.value;
    LeftoverChoice(d);
  }
}
