/**
 * $(filter) and $(filter-out), func_filter_filterout of gnumake/src/function.c: literal
 * patterns are looked up in a hash table of the words when there is enough to gain.
 */
module Filter {

  import opened WordLists

  /** A pattern with a percent sign, or a word to be matched as it is. */
  datatype Pattern = Percent(prefix: string, suffix: string) | Literal(text: string)

  /** pattern_matches, for a pattern whose percent sign is known. */
  predicate PatternMatches(prefix: string, suffix: string, word: string) {
    |prefix| + |suffix| <= |word| && word[..|prefix|] == prefix && word[|word| - |suffix|..] == suffix
  }

  /** The percent sign stands for some string. */
  lemma PatternMatchesIff(prefix: string, suffix: string, word: string)
    ensures PatternMatches(prefix, suffix, word) <==> exists stem :: word == prefix + stem + suffix
  {
    if PatternMatches(prefix, suffix, word) {
      var stem := word[|prefix|..|word| - |suffix|];
      assert word == word[..|prefix|] + stem + word[|word| - |suffix|..];
      assert word == prefix + stem + suffix;
    }
  }

  predicate Matches(p: Pattern, word: string) {
    match p
    case Percent(prefix, suffix) => PatternMatches(prefix, suffix, word)
    case Literal(text) => text == word
  }

  /** Some pattern matches the word. */
  predicate Wanted(patterns: seq<Pattern>, word: string) {
    exists p :: p in patterns && Matches(p, word)
  }

  /** The marks after the first n patterns. */
  ghost predicate Marked(words: seq<string>, patterns: seq<Pattern>, matched: seq<bool>) {
    |matched| == |words| && forall i :: 0 <= i < |words| ==> (matched[i] <==> Wanted(patterns, words[i]))
  }

  lemma WantedMore(patterns: seq<Pattern>, p: Pattern, word: string)
    ensures Wanted(patterns + [p], word) <==> Wanted(patterns, word) || Matches(p, word)
  {
    if Wanted(patterns, word) {
      var q :| q in patterns && Matches(q, word);
      assert q in patterns + [p];
    }
    assert p in patterns + [p];
  }

  /** The matches of one more pattern are added. */
  lemma MarkedMore(words: seq<string>, patterns: seq<Pattern>, p: Pattern, before: seq<bool>, after: seq<bool>)
    requires Marked(words, patterns, before) && |after| == |words|
    requires forall i :: 0 <= i < |words| ==> (after[i] <==> before[i] || Matches(p, words[i]))
    ensures Marked(words, patterns + [p], after)
  {
    forall i | 0 <= i < |words| ensures after[i] <==> Wanted(patterns + [p], words[i]) {
      WantedMore(patterns, p, words[i]);
    }
  }

  /** The words as an array of records: the marks, and for each word the one with the same text before it. */
  class Words {
    const words: seq<string>
    const matched: array<bool>
    const chain: array<int>
    var table: map<string, nat>

    constructor (words: seq<string>)
      ensures this.words == words && fresh(matched) && fresh(chain) && matched.Length == chain.Length == |words|
      ensures forall i :: 0 <= i < |words| ==> !matched[i] && chain[i] == -1
      ensures table == map[]
    {
      this.words := words;
      matched := new bool[|words|](_ => false);
      chain := new int[|words|](_ => -1);
      table := map[];
    }

    /**
     * Among the first n words: each is chained to the last equal word before it, and the table has the
     * last of each.
     */
    ghost predicate Chained(n: nat)
      reads this, chain
    {
      && n <= |words| == chain.Length
      && (forall i {:trigger chain[i]} :: 0 <= i < n ==> chain[i] == Previous(words, i, words[i]))
      && (forall w :: Entry(w) == Previous(words, n, w))
    }

    /** What the table has for a word, or -1. */
    function Entry(w: string): int
      reads this
    {
      if w in table then table[w] else -1
    }

    /** hash_insert of word n; the item it replaces becomes the chain. */
    method Insert(n: nat)
      requires n < |words| && Chained(n) && (forall i :: n <= i < |words| ==> chain[i] == -1)
      modifies this`table, chain
      ensures Chained(n + 1) && forall i :: n < i < |words| ==> chain[i] == -1
    {
      var w := words[n];
      assert Entry(w) == Previous(words, n, w);
      if w in table {
        chain[n] := table[w];
      }
      table := table[w := n];
      forall v ensures Entry(v) == Previous(words, n + 1, v) {
        assert old(Entry(v)) == Previous(words, n, v);
      }
    }

    method BuildTable()
      requires |words| == chain.Length && table == map[] && forall i :: 0 <= i < |words| ==> chain[i] == -1
      modifies this`table, chain
      ensures Chained(|words|)
    {
      for n := 0 to |words|
        invariant Chained(n) && forall i :: n <= i < |words| ==> chain[i] == -1
      {
        Insert(n);
      }
    }

    /** Mark the words equal to a literal pattern by way of the table and the chains. */
    method MarkHashed(text: string)
      requires matched.Length == |words| && Chained(|words|) && matched as object != chain as object
      modifies matched
      ensures forall i :: 0 <= i < |words| ==> (matched[i] <==> old(matched[i]) || words[i] == text)
    {
      var wp := Entry(text);
      NoneBetween(words, |words|, text);
      while wp >= 0
        invariant -1 <= wp < |words| && (wp >= 0 ==> words[wp] == text) && Chained(|words|)
        invariant forall i :: wp < i < |words| ==> (matched[i] <==> old(matched[i]) || words[i] == text)
        invariant forall i :: 0 <= i <= wp ==> matched[i] == old(matched[i])
        decreases wp
      {
        matched[wp] := true;
        NoneBetween(words, wp, text);
        wp := chain[wp];
      }
    }

    /** Mark the words that a pattern matches, one by one. */
    method MarkEach(p: Pattern)
      requires matched.Length == |words|
      modifies matched
      ensures forall i :: 0 <= i < |words| ==> (matched[i] <==> old(matched[i]) || Matches(p, words[i]))
    {
      for wp := 0 to |words|
        invariant forall i :: 0 <= i < wp ==> (matched[i] <==> old(matched[i]) || Matches(p, words[i]))
        invariant forall i :: wp <= i < |words| ==> matched[i] == old(matched[i])
      {
        matched[wp] := matched[wp] || Matches(p, words[wp]);
      }
    }

    /** Run each pattern through the words: with or without the table, a word is marked if some pattern matches it. */
    method MarkAll(patterns: seq<Pattern>, hashing: bool)
      requires matched.Length == chain.Length == |words| && matched as object != chain as object && table == map[]
      requires forall i :: 0 <= i < |words| ==> !matched[i] && chain[i] == -1
      modifies this`table, chain, matched
      ensures Marked(words, patterns, matched[..])
    {
      if hashing { BuildTable(); }
      assert Marked(words, patterns[..0], matched[..]);
      for n := 0 to |patterns|
        invariant matched as object != chain as object && Marked(words, patterns[..n], matched[..])
        invariant hashing ==> Chained(|words|)
        modifies matched
      {
        ghost var before := matched[..];
        var p := patterns[n];
        if p.Literal? && hashing {
          MarkHashed(p.text);
        } else {
          MarkEach(p);
        }
        assert patterns[..n + 1] == patterns[..n] + [p];
        MarkedMore(words, patterns[..n], p, before, matched[..]);
      }
      assert patterns[..|patterns|] == patterns;
    }
  }

  /** The last of the first n words that is equal to w, or -1. */
  function Previous(words: seq<string>, n: nat, w: string): (i: int)
    requires n <= |words|
    ensures -1 <= i < n && (i >= 0 ==> words[i] == w)
  {
    if n == 0 then -1 else if words[n - 1] == w then n - 1 else Previous(words, n - 1, w)
  }

  lemma {:induction false} NoneBetween(words: seq<string>, n: nat, w: string)
    requires n <= |words|
    ensures forall j :: Previous(words, n, w) < j < n ==> words[j] != w
  {
    if n > 0 && words[n - 1] != w { NoneBetween(words, n - 1, w); }
  }

  function Literals(patterns: seq<Pattern>): nat {
    if patterns == [] then 0 else (if patterns[0].Literal? then 1 else 0) + Literals(patterns[1..])
  }

  /** The words that are kept, in their order. */
  function Kept(words: seq<string>, patterns: seq<Pattern>, isFilter: bool): seq<string> {
    if words == [] then []
    else
      var front, last := Kept(words[..|words| - 1], patterns, isFilter), words[|words| - 1];
      if Wanted(patterns, last) == isFilter then front + [last] else front
  }

  lemma KeptMore(words: seq<string>, n: nat, patterns: seq<Pattern>, isFilter: bool)
    requires n < |words|
    ensures Wanted(patterns, words[n]) == isFilter ==>
      Kept(words[..n + 1], patterns, isFilter) == Kept(words[..n], patterns, isFilter) + [words[n]]
    ensures Wanted(patterns, words[n]) != isFilter ==>
      Kept(words[..n + 1], patterns, isFilter) == Kept(words[..n], patterns, isFilter)
  {
    assert words[..n + 1][..n] == words[..n];
  }

  /** func_filter_filterout */
  method FilterFilterout(words: seq<string>, patterns: seq<Pattern>, isFilter: bool) returns (o: string)
    ensures o == Text(Kept(words, patterns, isFilter))
  {
    if |words| == 0 { return ""; }
    var literals := Literals(patterns);
    var hashing := literals > 1 && literals * |words| >= 10;
    var a := new Words(words);
    a.MarkAll(patterns, hashing);
    o := "";
    var doneany := false;
    for wp := 0 to |words|
      invariant Marked(words, patterns, a.matched[..])
      invariant o == Spaced(Kept(words[..wp], patterns, isFilter))
      invariant doneany <==> Kept(words[..wp], patterns, isFilter) != []
    {
      KeptMore(words, wp, patterns, isFilter);
      assert a.matched[wp] == a.matched[..][wp];
      if a.matched[wp] == isFilter {
        SpacedMore(Kept(words[..wp], patterns, isFilter), words[wp]);
        o := o + (words[wp] + " ");
        doneany := true;
      }
    }
    assert words[..|words|] == words;
    if doneany {
      o := o[..|o| - 1];
    }
  }

  /** Every word is kept by exactly one of filter and filter-out. */
  lemma {:induction false} Partition(words: seq<string>, patterns: seq<Pattern>)
    ensures multiset(Kept(words, patterns, true)) + multiset(Kept(words, patterns, false)) == multiset(words)
    ensures forall w :: w in Kept(words, patterns, true) ==> Wanted(patterns, w)
    ensures forall w :: w in Kept(words, patterns, false) ==> !Wanted(patterns, w)
  {
    if words != [] {
      var front, last := words[..|words| - 1], words[|words| - 1];
      Partition(front, patterns);
      assert words == front + [last];
    }
  }
}
