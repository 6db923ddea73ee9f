/**
 * Pattern rules as gnumake/src/implicit.c sees them: how a target pattern fits a file name,
 * what the prerequisites of a rule are for a stem, and what makes a prerequisite qualify.
 */
module PatternRules {

  import opened Wrappers

  /** The target pattern prefix%suffix. */
  datatype Target = Target(prefix: string, suffix: string)

  /** A prerequisite of a rule: a word, or one that needs a second expansion with directory and stem. */
  datatype Dep = Word(text: string) | Secondary(expand: (string, string) -> seq<string>)

  datatype Rule = Rule(targets: seq<Target>, deps: seq<Dep>, cmds: bool, terminal: bool)

  predicate MatchesAnything(t: Target) {
    t.prefix == "" && t.suffix == ""
  }

  /** Length of the directory part: a slash at the end of the name does not count. */
  function PathLength(name: string, flat: bool): (n: nat)
    ensures n < |name| || n == 0
    ensures if flat then n == 0 else DirectoryEnds(name, n)
  {
    if flat || name == "" then 0 else LastSlash(name, |name| - 1)
  }

  function LastSlash(name: string, i: nat): (n: nat)
    requires i < |name|
    ensures n <= i && (n > 0 ==> name[n - 1] == '/')
    ensures '/' !in name[n..i]
  {
    if i == 0 then 0 else if name[i - 1] == '/' then i else LastSlash(name, i - 1)
  }

  /** The directory part of the name has length n: up to its last slash, not counting one at the end. */
  predicate DirectoryEnds(name: string, n: nat) {
    n <= |name| && (n > 0 ==> n < |name| && name[n - 1] == '/') && forall i :: n <= i < |name| - 1 ==> name[i] != '/'
  }

  /** The directory prefix is set aside when the name has one and the pattern has no slash. */
  predicate SetsAside(t: Target, pathlen: nat) {
    pathlen > 0 && '/' !in t.prefix && '/' !in t.suffix
  }

  function Directory(t: Target, name: string, pathlen: nat): (dir: string)
    requires pathlen <= |name|
    ensures '/' in t.prefix + t.suffix ==> dir == ""
    ensures '/' !in t.prefix + t.suffix ==> dir == name[..pathlen]
  {
    if SetsAside(t, pathlen) then name[..pathlen] else ""
  }

  /** The stem for which the pattern fits the name, found from the lengths of the parts. */
  function Stem(t: Target, name: string, pathlen: nat): Option<string>
    requires pathlen <= |name|
  {
    var aside := if SetsAside(t, pathlen) then pathlen else 0;
    if |t.prefix| + 1 + |t.suffix| > |name| then None
    else
      var stemlen := |name| - |t.prefix| - |t.suffix|;
      if aside > stemlen then None
      else
        var start := aside + |t.prefix|;
        if name[aside..start] != t.prefix || name[start + stemlen - aside..] != t.suffix then None
        else Some(name[start..start + stemlen - aside])
  }

  /** Directory, prefix, stem and suffix make up the name, and the part for the % is not empty. */
  predicate Rebuilds(t: Target, name: string, pathlen: nat, stem: string)
    requires pathlen <= |name|
  {
    name == Directory(t, name, pathlen) + t.prefix + stem + t.suffix && Directory(t, name, pathlen) + stem != ""
  }

  /** The pattern fits with a stem exactly when directory, prefix, stem and suffix rebuild the name. */
  lemma StemRebuilds(t: Target, name: string, pathlen: nat, stem: string)
    requires pathlen <= |name|
    ensures Stem(t, name, pathlen) == Some(stem) <==> Rebuilds(t, name, pathlen, stem)
  {
    if Rebuilds(t, name, pathlen, stem) { RebuiltStem(t, name, pathlen, stem); }
    if Stem(t, name, pathlen) == Some(stem) { StemRebuilt(t, name, pathlen, stem); }
  }

  lemma RebuiltStem(t: Target, name: string, pathlen: nat, stem: string)
    requires pathlen <= |name| && Rebuilds(t, name, pathlen, stem)
    ensures Stem(t, name, pathlen) == Some(stem)
  {
    var n := |Directory(t, name, pathlen)|;
    FourParts(name, name[..n], t.prefix, stem, t.suffix);
  }

  lemma FourParts(name: string, a: string, b: string, c: string, d: string)
    requires name == a + b + c + d
    ensures name[|a|..|a| + |b|] == b && name[|a| + |b|..|a| + |b| + |c|] == c && name[|a| + |b| + |c|..] == d
  {
  }

  lemma StemRebuilt(t: Target, name: string, pathlen: nat, stem: string)
    requires pathlen <= |name| && Stem(t, name, pathlen) == Some(stem)
    ensures Rebuilds(t, name, pathlen, stem)
  {
    var n := |Directory(t, name, pathlen)|;
    var start := n + |t.prefix|;
    assert name == name[..n] + name[n..start] + name[start..start + |stem|] + name[start + |stem|..];
  }

  /** A word with its first % replaced by the stem, in the directory of the target. */
  function Substituted(text: string, dir: string, stem: string): string {
    var i := PercentAt(text, 0);
    if i == |text| then text else dir + text[..i] + stem + text[i + 1..]
  }

  function PercentAt(text: string, i: nat): (j: nat)
    requires i <= |text|
    ensures i <= j <= |text| && '%' !in text[i..j] && (j < |text| ==> text[j] == '%')
    decreases |text| - i
  {
    if i == |text| || text[i] == '%' then i else PercentAt(text, i + 1)
  }

  function Prereqs(deps: seq<Dep>, dir: string, stem: string): seq<string> {
    if deps == [] then []
    else (match deps[0]
      case Word(text) => [Substituted(text, dir, stem)]
      case Secondary(expand) => expand(dir, stem)) + Prereqs(deps[1..], dir, stem)
  }

  lemma {:induction false} PercentFirst(text: string, k: nat, i: nat)
    requires k <= i <= |text| && '%' !in text[k..i] && (i < |text| ==> text[i] == '%')
    ensures PercentAt(text, k) == i
    decreases i - k
  {
    if k < i {
      assert text[k..i][0] != '%' && text[k..i][1..] == text[k + 1..i];
      PercentFirst(text, k + 1, i);
    }
  }

  /**
   * The prerequisite pre%suf fits the pattern it is written as, with the stem and in the directory
   * of the target; a word without % stays as it is.
   */
  lemma SubstitutedFits(pre: string, suf: string, dir: string, stem: string)
    requires '%' !in pre && '/' !in pre && '/' !in suf && dir + stem != "" && (dir != "" ==> dir[|dir| - 1] == '/')
    ensures var name, t := Substituted(pre + "%" + suf, dir, stem), Target(pre, suf);
      |dir| <= |name| && Stem(t, name, |dir|) == Some(stem) && Directory(t, name, |dir|) == dir
    ensures Substituted(pre, dir, stem) == pre
  {
    var text, t := pre + "%" + suf, Target(pre, suf);
    assert text[0..|pre|] == pre && text[..|pre|] == pre && text[|pre| + 1..] == suf && pre[0..|pre|] == pre;
    PercentFirst(text, 0, |pre|);
    PercentFirst(pre, 0, |pre|);
    var name := Substituted(text, dir, stem);
    assert name == dir + pre + stem + suf;
    assert name[..|dir|] == dir;
    StemRebuilds(t, name, |dir|, stem);
  }

  /** Each word gives one name, in order, whatever stands before and after it. */
  lemma {:induction false} PrereqsInOrder(before: seq<Dep>, text: string, after: seq<Dep>, dir: string, stem: string)
    ensures Prereqs(before + [Word(text)] + after, dir, stem) ==
      Prereqs(before, dir, stem) + [Substituted(text, dir, stem)] + Prereqs(after, dir, stem)
  {
    var deps := before + [Word(text)] + after;
    if before == [] {
      assert deps[1..] == after;
    } else {
      PrereqsInOrder(before[1..], text, after, dir, stem);
      assert deps[1..] == before[1..] + [Word(text)] + after;
    }
  }

  /** What the disk holds; fixed during a search. */
  datatype World = World(exists_: string -> bool, vpath: string -> bool, archive: string -> bool, pathMax: nat)

  /** What make knows about files: those mentioned, those that are targets, those ruled impossible. */
  datatype Files = Files(known: set<string>, targets: set<string>, impossible: set<string>) {
    ghost predicate Below(later: Files) {
      known <= later.known && targets <= later.targets && impossible <= later.impossible
    }
  }

  /** Why a prerequisite qualifies without a search. */
  datatype Why = IsTarget | OwnDep | Exists | Compat | Vpath

  /** The prerequisites that were found: each qualifies, or is made by another rule. */
  datatype Need = Known(name: string, why: Why) | Made(name: string, how: Derivation)

  datatype Derivation = Derivation(rule: nat, target: nat, dir: string, stem: string, compat: bool, needs: seq<Need>)

  function NeedNames(needs: seq<Need>): (names: seq<string>)
    ensures |names| == |needs|
  {
    if needs == [] then [] else NeedNames(needs[..|needs| - 1]) + [needs[|needs| - 1].name]
  }

  predicate NoneMade(needs: seq<Need>) {
    forall n :: n in needs ==> n.Known?
  }

  predicate Qualifies(name: string, why: Why, world: World, files: Files, own: seq<string>, allowCompat: bool) {
    match why
    case IsTarget => name in files.targets
    case OwnDep => name in own
    case Exists => world.exists_(name)
    case Compat => allowCompat && name in files.known
    case Vpath => world.vpath(name)
  }

  /** The acceptance tests for a prerequisite, in their order. */
  function Accept(name: string, world: World, files: Files, own: seq<string>, allowCompat: bool): (r: Option<Why>)
    ensures r.Some? ==> Qualifies(name, r.value, world, files, own, allowCompat)
    ensures r.None? ==> forall why :: !Qualifies(name, why, world, files, own, allowCompat)
  {
    if name in files.targets then Some(IsTarget)
    else if name in own then Some(OwnDep)
    else if world.exists_(name) then Some(Exists)
    else if name in files.known && allowCompat then Some(Compat)
    else if world.vpath(name) then Some(Vpath)
    else None
  }
}
