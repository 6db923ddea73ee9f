/**
 * The rules a pattern search will try, in the order in which it tries them
 * (gnumake/src/implicit.c): every rule that fits the name, shortest stem first.
 */
module TryRules {

  import opened PatternRules
  import opened Wrappers

  /** What a search is for: the name and its directory length, the prerequisites it already has, the level. */
  datatype Query = Query(name: string, pathlen: nat, own: seq<string>, nested: bool, allowCompat: bool) {
    predicate Valid() {
      pathlen <= |name|
    }
  }

  /** An entry of tryrules; live is false once the rule is known not to apply. */
  datatype Try = Try(rule: nat, target: nat, stemlen: nat, order: nat, live: bool)

  predicate Considered(rules: seq<Rule>, inUse: set<nat>, r: nat) {
    r < |rules| && r !in inUse && (rules[r].deps != [] ==> rules[r].cmds)
  }

  /** Target ti of rule r fits the name, and may be used at this level. */
  predicate Fits(rules: seq<Rule>, inUse: set<nat>, q: Query, r: nat, ti: nat)
    requires q.Valid()
  {
    && Considered(rules, inUse, r) && ti < |rules[r].targets|
    && !(q.nested && MatchesAnything(rules[r].targets[ti]) && !rules[r].terminal)
    && Stem(rules[r].targets[ti], q.name, q.pathlen).Some?
  }

  predicate Usable(rules: seq<Rule>, inUse: set<nat>, q: Query, r: nat, ti: nat)
    requires q.Valid()
  {
    Fits(rules, inUse, q, r, ti) && rules[r].cmds
  }

  /** Some rule fits that would not fit every name. */
  ghost predicate Specific(rules: seq<Rule>, inUse: set<nat>, q: Query)
    requires q.Valid()
  {
    exists r: nat, ti: nat :: Fits(rules, inUse, q, r, ti) && !MatchesAnything(rules[r].targets[ti])
  }

  predicate AnyMatchesAnything(rule: Rule) {
    exists t :: t in rule.targets && MatchesAnything(t)
  }

  /** The rule fits and is not set aside in favour of a more specific one. */
  ghost predicate Candidate(rules: seq<Rule>, inUse: set<nat>, q: Query, r: nat, ti: nat)
    requires q.Valid()
  {
    Usable(rules, inUse, q, r, ti) && !(Specific(rules, inUse, q) && Rejected(rules[r]))
  }

  function StemLength(rules: seq<Rule>, q: Query, r: nat, ti: nat): nat
    requires q.Valid() && r < |rules| && ti < |rules[r].targets|
  {
    var stem := Stem(rules[r].targets[ti], q.name, q.pathlen);
    |Directory(rules[r].targets[ti], q.name, q.pathlen)| + if stem.Some? then |stem.value| else 0
  }

  /**
   * A rule fits if it is not in use, has commands unless it has no prerequisites, and its target
   * makes up the name with some stem; below the top level a lone % needs a terminal rule.
   */
  lemma FitsIff(rules: seq<Rule>, inUse: set<nat>, q: Query, r: nat, ti: nat)
    requires q.Valid()
    ensures Fits(rules, inUse, q, r, ti) <==>
      && r < |rules| && ti < |rules[r].targets| && r !in inUse && (rules[r].deps == [] || rules[r].cmds)
      && (q.nested && rules[r].targets[ti] == Target("", "") ==> rules[r].terminal)
      && exists stem :: Rebuilds(rules[r].targets[ti], q.name, q.pathlen, stem)
  {
    if r < |rules| && ti < |rules[r].targets| {
      var t := rules[r].targets[ti];
      if Stem(t, q.name, q.pathlen).Some? {
        StemRebuilds(t, q.name, q.pathlen, Stem(t, q.name, q.pathlen).value);
      }
      forall stem | Rebuilds(t, q.name, q.pathlen, stem) ensures Stem(t, q.name, q.pathlen).Some? {
        StemRebuilds(t, q.name, q.pathlen, stem);
      }
    }
  }

  /** Not tried are those without commands and, next to a more specific rule, those with a lone %. */
  lemma CandidateIff(rules: seq<Rule>, inUse: set<nat>, q: Query, r: nat, ti: nat)
    requires q.Valid()
    ensures Candidate(rules, inUse, q, r, ti) <==>
      && Fits(rules, inUse, q, r, ti) && rules[r].cmds
      && (rules[r].terminal || Target("", "") !in rules[r].targets ||
          forall r': nat, ti': nat :: Fits(rules, inUse, q, r', ti') ==> rules[r'].targets[ti'] == Target("", ""))
  {
    if r < |rules| {
      assert AnyMatchesAnything(rules[r]) <==> Target("", "") in rules[r].targets;
    }
  }

  /** Rules are ordered by what is left of the name for the %, that is, by its length without prefix and suffix. */
  lemma StemLengthIs(rules: seq<Rule>, inUse: set<nat>, q: Query, r: nat, ti: nat)
    requires q.Valid() && Fits(rules, inUse, q, r, ti)
    ensures StemLength(rules, q, r, ti) == |q.name| - |rules[r].targets[ti].prefix| - |rules[r].targets[ti].suffix|
  {
    var t := rules[r].targets[ti];
    StemRebuilds(t, q.name, q.pathlen, Stem(t, q.name, q.pathlen).value);
  }

  /** Definition order: rule by rule, target by target. */
  predicate Earlier(r: nat, ti: nat, r': nat, ti': nat) {
    r < r' || (r == r' && ti < ti')
  }

  /** Shorter stem first, then definition order. */
  predicate Before(rules: seq<Rule>, q: Query, r: nat, ti: nat, r': nat, ti': nat)
    requires q.Valid() && r < |rules| && ti < |rules[r].targets| && r' < |rules| && ti' < |rules[r'].targets|
  {
    var n, n' := StemLength(rules, q, r, ti), StemLength(rules, q, r', ti');
    n < n' || (n == n' && Earlier(r, ti, r', ti'))
  }

  /** stemlen_compare */
  predicate Less(a: Try, b: Try) {
    a.stemlen < b.stemlen || (a.stemlen == b.stemlen && a.order < b.order)
  }

  ghost predicate SortedBy(tries: seq<Try>) {
    forall i, j :: 0 <= i < j < |tries| ==> Less(tries[i], tries[j])
  }

  /** An entry holds a usable rule. */
  predicate Proper(rules: seq<Rule>, inUse: set<nat>, q: Query, t: Try)
    requires q.Valid()
  {
    Usable(rules, inUse, q, t.rule, t.target) && t.stemlen == StemLength(rules, q, t.rule, t.target)
  }

  ghost predicate AllProper(rules: seq<Rule>, inUse: set<nat>, q: Query, tries: seq<Try>)
    requires q.Valid()
  {
    forall t :: t in tries ==> Proper(rules, inUse, q, t)
  }

  /** The usable rules before position (r, ti) are all there. */
  ghost predicate Complete(rules: seq<Rule>, inUse: set<nat>, q: Query, tries: seq<Try>, r: nat, ti: nat)
    requires q.Valid()
  {
    forall r': nat, ti': nat :: Earlier(r', ti', r, ti) && Usable(rules, inUse, q, r', ti') ==> Present(tries, r', ti')
  }

  ghost predicate Present(tries: seq<Try>, r: nat, ti: nat) {
    exists t :: t in tries && t.rule == r && t.target == ti
  }

  /** The order field is the definition order. */
  ghost predicate Ordered(tries: seq<Try>, r: nat, ti: nat) {
    && (forall i :: 0 <= i < |tries| ==>
          tries[i].order == i && tries[i].live && Earlier(tries[i].rule, tries[i].target, r, ti))
    && (forall i, j :: 0 <= i < j < |tries| ==> Earlier(tries[i].rule, tries[i].target, tries[j].rule, tries[j].target))
  }

  /** Some specific rule fits before position (r, ti). */
  ghost predicate SpecificBefore(rules: seq<Rule>, inUse: set<nat>, q: Query, r: nat, ti: nat)
    requires q.Valid()
  {
    exists r': nat, ti': nat ::
      Earlier(r', ti', r, ti) && Fits(rules, inUse, q, r', ti') && !MatchesAnything(rules[r'].targets[ti'])
  }

  /** Look at one target of one rule. */
  method Consider(rules: seq<Rule>, inUse: set<nat>, q: Query, tries: seq<Try>, specific: bool, r: nat, ti: nat)
    returns (tries': seq<Try>, specific': bool)
    requires q.Valid() && Considered(rules, inUse, r) && ti < |rules[r].targets|
    requires AllProper(rules, inUse, q, tries) && Complete(rules, inUse, q, tries, r, ti) && Ordered(tries, r, ti)
    requires specific <==> SpecificBefore(rules, inUse, q, r, ti)
    ensures AllProper(rules, inUse, q, tries') && Complete(rules, inUse, q, tries', r, ti + 1)
    ensures Ordered(tries', r, ti + 1)
    ensures specific' <==> SpecificBefore(rules, inUse, q, r, ti + 1)
  {
    tries', specific' := tries, specific;
    var target := rules[r].targets[ti];
    if Fits(rules, inUse, q, r, ti) {
      if !MatchesAnything(target) { specific' := true; }
      if rules[r].cmds {
        tries' := tries + [Try(r, ti, StemLength(rules, q, r, ti), |tries|, true)];
      }
    }
  }

  /** Fill tryrules. */
  method Collect(rules: seq<Rule>, inUse: set<nat>, q: Query) returns (tries: seq<Try>, specific: bool)
    requires q.Valid()
    ensures AllProper(rules, inUse, q, tries) && Complete(rules, inUse, q, tries, |rules|, 0)
    ensures Ordered(tries, |rules|, 0)
    ensures specific <==> Specific(rules, inUse, q)
  {
    tries, specific := [], false;
    for r := 0 to |rules|
      invariant AllProper(rules, inUse, q, tries) && Complete(rules, inUse, q, tries, r, 0) && Ordered(tries, r, 0)
      invariant specific <==> SpecificBefore(rules, inUse, q, r, 0)
    {
      if Considered(rules, inUse, r) {
        for ti := 0 to |rules[r].targets|
          invariant AllProper(rules, inUse, q, tries) && Complete(rules, inUse, q, tries, r, ti)
          invariant Ordered(tries, r, ti)
          invariant specific <==> SpecificBefore(rules, inUse, q, r, ti)
        {
          tries, specific := Consider(rules, inUse, q, tries, specific, r, ti);
        }
        NextRow(rules, inUse, q, tries, r, |rules[r].targets|);
      } else {
        NextRow(rules, inUse, q, tries, r, 0);
      }
    }
  }

  /** Past the last target of a rule comes the first one of the next rule. */
  lemma NextRow(rules: seq<Rule>, inUse: set<nat>, q: Query, tries: seq<Try>, r: nat, ti: nat)
    requires q.Valid() && r < |rules| && (Considered(rules, inUse, r) ==> ti == |rules[r].targets|)
    requires Complete(rules, inUse, q, tries, r, ti) && Ordered(tries, r, ti)
    ensures Complete(rules, inUse, q, tries, r + 1, 0) && Ordered(tries, r + 1, 0)
    ensures SpecificBefore(rules, inUse, q, r + 1, 0) <==> SpecificBefore(rules, inUse, q, r, ti)
  {
    forall r': nat, ti': nat | Earlier(r', ti', r + 1, 0) && Fits(rules, inUse, q, r', ti')
      ensures Earlier(r', ti', r, ti)
    {
    }
  }

  /** Put t where it belongs in a sorted list. */
  method Insert(t: Try, sorted: seq<Try>) returns (r: seq<Try>)
    requires SortedBy(sorted) && forall u :: u in sorted ==> u.order != t.order
    ensures SortedBy(r) && multiset(r) == multiset(sorted) + multiset{t}
  {
    var k := |sorted|;
    while k > 0 && Less(t, sorted[k - 1])
      invariant 0 <= k <= |sorted|
      invariant forall i :: k <= i < |sorted| ==> Less(t, sorted[i])
    {
      k := k - 1;
    }
    forall i | 0 <= i < k ensures Less(sorted[i], t) {
      assert sorted[k - 1] in sorted;
      assert i < k - 1 ==> Less(sorted[i], sorted[k - 1]);
    }
    InsertSorts(t, sorted, k);
    InsertAdds(t, sorted, k);
    r := sorted[..k] + [t] + sorted[k..];
  }

  lemma InsertSorts(t: Try, sorted: seq<Try>, k: nat)
    requires k <= |sorted| && SortedBy(sorted)
    requires forall i :: 0 <= i < k ==> Less(sorted[i], t)
    requires forall i :: k <= i < |sorted| ==> Less(t, sorted[i])
    ensures SortedBy(sorted[..k] + [t] + sorted[k..])
  {
    var r := sorted[..k] + [t] + sorted[k..];
    forall i, j | 0 <= i < j < |r| ensures Less(r[i], r[j]) {
      assert r[i] == if i < k then sorted[i] else if i == k then t else sorted[i - 1];
      assert r[j] == if j < k then sorted[j] else if j == k then t else sorted[j - 1];
    }
  }

  lemma InsertAdds(t: Try, sorted: seq<Try>, k: nat)
    requires k <= |sorted|
    ensures multiset(sorted[..k] + [t] + sorted[k..]) == multiset(sorted) + multiset{t}
  {
    assert sorted == sorted[..k] + sorted[k..];
  }

  /** qsort by stemlen_compare. */
  method Sort(tries: seq<Try>) returns (sorted: seq<Try>)
    requires forall i :: 0 <= i < |tries| ==> tries[i].order == i
    ensures SortedBy(sorted) && multiset(sorted) == multiset(tries)
  {
    sorted := [];
    for n := 0 to |tries|
      invariant SortedBy(sorted) && multiset(sorted) == multiset(tries[..n])
    {
      assert tries[..n + 1] == tries[..n] + [tries[n]];
      forall u | u in sorted ensures u.order != n {
        assert u in multiset(sorted);
        assert u in tries[..n];
      }
      sorted := Insert(tries[n], sorted);
    }
    assert tries[..|tries|] == tries;
  }

  /** The usable rules, in the order of Before. */
  ghost predicate Lined(rules: seq<Rule>, inUse: set<nat>, q: Query, tries: seq<Try>)
    requires q.Valid()
  {
    && AllProper(rules, inUse, q, tries)
    && (forall r: nat, ti: nat :: Usable(rules, inUse, q, r, ti) ==> Present(tries, r, ti))
    && (forall i, j :: 0 <= i < j < |tries| ==> Precedes(rules, q, tries[i], tries[j]))
  }

  /** A list ready to be tried: the candidates among its rules are marked live. */
  ghost predicate Prepared(rules: seq<Rule>, inUse: set<nat>, q: Query, tries: seq<Try>)
    requires q.Valid()
  {
    && Lined(rules, inUse, q, tries)
    && (forall i :: 0 <= i < |tries| ==>
          (tries[i].live <==> Candidate(rules, inUse, q, tries[i].rule, tries[i].target)))
  }

  ghost predicate Precedes(rules: seq<Rule>, q: Query, a: Try, b: Try)
    requires q.Valid()
  {
    && a.rule < |rules| && a.target < |rules[a.rule].targets| && b.rule < |rules| && b.target < |rules[b.rule].targets|
    && Before(rules, q, a.rule, a.target, b.rule, b.target)
  }

  /** Sorted by the order field, the list is sorted by definition order. */
  lemma SortedIsLined(rules: seq<Rule>, inUse: set<nat>, q: Query, tries: seq<Try>, sorted: seq<Try>)
    requires q.Valid() && AllProper(rules, inUse, q, tries) && Ordered(tries, |rules|, 0)
    requires Complete(rules, inUse, q, tries, |rules|, 0)
    requires SortedBy(sorted) && multiset(sorted) == multiset(tries)
    ensures Lined(rules, inUse, q, sorted)
    ensures forall i :: 0 <= i < |sorted| ==> sorted[i].live
  {
    SameMembers(sorted, tries);
    forall i | 0 <= i < |sorted| ensures sorted[i].live {
      assert sorted[i] in tries;
    }
    forall i, j | 0 <= i < j < |sorted| ensures Precedes(rules, q, sorted[i], sorted[j]) {
      var a, b := sorted[i], sorted[j];
      assert a in sorted && b in sorted;
      var i', j' :| 0 <= i' < |tries| && tries[i'] == a && 0 <= j' < |tries| && tries[j'] == b;
    }
    forall r: nat, ti: nat | Usable(rules, inUse, q, r, ti) ensures Present(sorted, r, ti) {
      assert Earlier(r, ti, |rules|, 0);
      assert Present(tries, r, ti);
    }
  }

  lemma SameMembers(a: seq<Try>, b: seq<Try>)
    requires multiset(a) == multiset(b)
    ensures forall t :: t in a <==> t in b
  {
    forall t ensures t in a <==> t in b {
      assert t in a <==> t in multiset(a);
      assert t in b <==> t in multiset(b);
    }
  }

  /** Marks do not change which rules are in the list, nor their order. */
  lemma MarkedIsLined(rules: seq<Rule>, inUse: set<nat>, q: Query, tries: seq<Try>, marked: seq<Try>)
    requires q.Valid() && Lined(rules, inUse, q, tries)
    requires |tries| == |marked| && forall i :: 0 <= i < |tries| ==> marked[i] == tries[i].(live := marked[i].live)
    ensures Lined(rules, inUse, q, marked)
  {
    forall r: nat, ti: nat | Usable(rules, inUse, q, r, ti) ensures Present(marked, r, ti) {
      assert Present(tries, r, ti);
      var t :| t in tries && t.rule == r && t.target == ti;
      var i :| 0 <= i < |tries| && tries[i] == t;
      assert marked[i] in marked;
    }
    forall t | t in marked ensures Proper(rules, inUse, q, t) {
      var i :| 0 <= i < |marked| && marked[i] == t;
      assert Proper(rules, inUse, q, tries[i]);
    }
    forall i, j | 0 <= i < j < |marked| ensures Precedes(rules, q, marked[i], marked[j]) {
      assert Precedes(rules, q, tries[i], tries[j]);
    }
  }

  predicate Rejected(rule: Rule) {
    !rule.terminal && AnyMatchesAnything(rule)
  }

  /** Reject the rules that match anything and are not terminal, if a specific rule fits. */
  method Prune(rules: seq<Rule>, tries: seq<Try>, specific: bool) returns (pruned: seq<Try>)
    requires forall i :: 0 <= i < |tries| ==> tries[i].live && tries[i].rule < |rules|
    ensures |pruned| == |tries|
    ensures forall i :: 0 <= i < |tries| ==>
      pruned[i] == tries[i].(live := !(specific && Rejected(rules[tries[i].rule])))
  {
    pruned := tries;
    if specific {
      for i := 0 to |tries|
        invariant |pruned| == |tries|
        invariant forall j :: 0 <= j < i ==> pruned[j] == tries[j].(live := !Rejected(rules[tries[j].rule]))
        invariant forall j :: i <= j < |tries| ==> pruned[j] == tries[j]
      {
        if Rejected(rules[tries[i].rule]) {
          pruned := pruned[i := pruned[i].(live := false)];
        }
      }
    }
  }

  /** Fill, sort and prune tryrules. */
  method Prepare(rules: seq<Rule>, inUse: set<nat>, q: Query) returns (tries: seq<Try>)
    requires q.Valid()
    ensures Prepared(rules, inUse, q, tries)
  {
    var found, specific := Collect(rules, inUse, q);
    var sorted := Sort(found);
    SortedIsLined(rules, inUse, q, found, sorted);
    assert forall i :: 0 <= i < |sorted| ==> Proper(rules, inUse, q, sorted[i]);
    tries := Prune(rules, sorted, specific);
    MarkedIsLined(rules, inUse, q, sorted, tries);
  }
}
