/**
 * internal_fnmatch (gnumake/lib/fnmatch.c) on patterns without bracket expressions, under any of the
 * flags FNM_NOESCAPE, FNM_PERIOD and FNM_CASEFOLD, against the matching relation of section
 * 2.13 of POSIX.1-2017 XCU.
 */
module Fnmatch {

  import opened Wrappers

  datatype Flags = Flags(noEscape: bool, caseFold: bool)

  /** What a pattern is made of: a character to be matched, any one character, any string. */
  datatype Token = Lit(c: char) | Any | Star

  function Fold(c: char, fl: Flags): char {
    if fl.caseFold && 'A' <= c <= 'Z' then c + 32 as char else c
  }

  /** Without the flag characters are told apart; with it the two forms of a letter are not. */
  lemma FoldIff(c: char, d: char, fl: Flags)
    ensures !fl.caseFold ==> (Fold(c, fl) == Fold(d, fl) <==> c == d)
    ensures fl.caseFold ==>
      (Fold(c, fl) == Fold(d, fl) <==>
       || c == d
       || ('A' <= c <= 'Z' && d as int == c as int + 32) || ('A' <= d <= 'Z' && c as int == d as int + 32))
  {
  }

  /** The pattern from position i on; there is none when it ends in a backslash that quotes nothing. */
  function Tokens(pattern: string, i: nat, fl: Flags): Option<seq<Token>>
    requires i <= |pattern|
    decreases |pattern| - i
  {
    if i == |pattern| then Some([])
    else if pattern[i] == '\\' && !fl.noEscape && i + 1 == |pattern| then None
    else
      var next := if pattern[i] == '\\' && !fl.noEscape then i + 2 else i + 1;
      match Tokens(pattern, next, fl)
      case None => None
      case Some(rest) => Some([TokenAt(pattern, i, fl)] + rest)
  }

  function TokenAt(pattern: string, i: nat, fl: Flags): Token
    requires i < |pattern| && !(pattern[i] == '\\' && !fl.noEscape && i + 1 == |pattern|)
  {
    if pattern[i] == '?' then Any
    else if pattern[i] == '*' then Star
    else if pattern[i] == '\\' && !fl.noEscape then Lit(Fold(pattern[i + 1], fl))
    else Lit(Fold(pattern[i], fl))
  }

  /** From position i on no bracket expression starts: every opening bracket is quoted. */
  predicate NoBracket(pattern: string, i: nat, fl: Flags)
    requires i <= |pattern|
    decreases |pattern| - i
  {
    i == |pattern| ||
    if pattern[i] == '\\' && !fl.noEscape then i + 1 == |pattern| || NoBracket(pattern, i + 2, fl)
    else pattern[i] != '[' && NoBracket(pattern, i + 1, fl)
  }

  /** The strings a token stands for. */
  predicate Stands(t: Token, piece: string, fl: Flags) {
    match t
    case Lit(c) => |piece| == 1 && Fold(piece[0], fl) == c
    case Any => |piece| == 1
    case Star => true
  }

  function Concat(pieces: seq<string>): string {
    if pieces == [] then "" else pieces[0] + Concat(pieces[1..])
  }

  ghost predicate Spells(tokens: seq<Token>, pieces: seq<string>, s: string, fl: Flags) {
    && |pieces| == |tokens| && Concat(pieces) == s
    && forall i :: 0 <= i < |tokens| ==> Stands(tokens[i], pieces[i], fl)
  }

  /**
   * The matching relation: the string can be cut into pieces, one for each token, and a
   * leading period, if it is special, stands for a period of the pattern.
   */
  ghost predicate Matches(pattern: string, s: string, period: bool, fl: Flags) {
    match Tokens(pattern, 0, fl)
    case None => false
    case Some(tokens) =>
      && (exists pieces :: Spells(tokens, pieces, s, fl))
      && (period && s != "" && s[0] == '.' ==> tokens != [] && tokens[0].Lit?)
  }

  /** The same relation, token by token. */
  ghost predicate Fits(tokens: seq<Token>, s: string, fl: Flags) {
    if tokens == [] then s == ""
    else match tokens[0]
      case Lit(c) => s != "" && Fold(s[0], fl) == c && Fits(tokens[1..], s[1..], fl)
      case Any => s != "" && Fits(tokens[1..], s[1..], fl)
      case Star => exists k :: 0 <= k <= |s| && Fits(tokens[1..], s[k..], fl)
  }

  lemma {:induction false} FitsIsSpells(tokens: seq<Token>, s: string, fl: Flags)
    ensures Fits(tokens, s, fl) <==> exists pieces :: Spells(tokens, pieces, s, fl)
  {
    if Fits(tokens, s, fl) {
      var pieces := Cut(tokens, s, fl);
    }
    forall pieces | Spells(tokens, pieces, s, fl) ensures Fits(tokens, s, fl) {
      Glue(tokens, pieces, s, fl);
    }
  }

  lemma {:induction false} Cut(tokens: seq<Token>, s: string, fl: Flags) returns (pieces: seq<string>)
    requires Fits(tokens, s, fl)
    ensures Spells(tokens, pieces, s, fl)
  {
    if tokens == [] {
      pieces := [];
    } else {
      var k := 1;
      if tokens[0].Star? {
        k :| 0 <= k <= |s| && Fits(tokens[1..], s[k..], fl);
      }
      var rest := Cut(tokens[1..], s[k..], fl);
      pieces := [s[..k]] + rest;
      assert pieces[1..] == rest;
    }
  }

  lemma {:induction false} Glue(tokens: seq<Token>, pieces: seq<string>, s: string, fl: Flags)
    requires Spells(tokens, pieces, s, fl)
    ensures Fits(tokens, s, fl)
  {
    if tokens != [] {
      var k := |pieces[0]|;
      assert s[k..] == Concat(pieces[1..]) && s[..k] == pieces[0];
      forall i | 0 <= i < |tokens[1..]| ensures Stands(tokens[1..][i], pieces[1..][i], fl) {
        assert Stands(tokens[i + 1], pieces[i + 1], fl);
      }
      Glue(tokens[1..], pieces[1..], s[k..], fl);
    }
  }

  /** Two stars in a row are one. */
  lemma StarStar(tokens: seq<Token>, s: string, fl: Flags)
    ensures Fits([Star, Star] + tokens, s, fl) <==> Fits([Star] + tokens, s, fl)
  {
    assert ([Star, Star] + tokens)[1..] == [Star] + tokens;
    assert ([Star] + tokens)[1..] == tokens;
    if Fits([Star] + tokens, s, fl) {
      assert s[0..] == s;
    }
    if Fits([Star, Star] + tokens, s, fl) {
      var k :| 0 <= k <= |s| && Fits([Star] + tokens, s[k..], fl);
      var j :| 0 <= j <= |s[k..]| && Fits(tokens, s[k..][j..], fl);
      assert s[k..][j..] == s[k + j..];
    }
  }

  /** A star and a question mark need one character, which may as well be the first. */
  lemma StarAny(tokens: seq<Token>, s: string, fl: Flags)
    ensures Fits([Star, Any] + tokens, s, fl) <==> s != "" && Fits([Star] + tokens, s[1..], fl)
  {
    assert ([Star, Any] + tokens)[1..] == [Any] + tokens;
    assert ([Any] + tokens)[1..] == tokens && ([Star] + tokens)[1..] == tokens;
    if Fits([Star, Any] + tokens, s, fl) {
      var k :| 0 <= k <= |s| && Fits([Any] + tokens, s[k..], fl);
      assert s[k..][1..] == s[1..][k..];
    }
    if s != "" && Fits([Star] + tokens, s[1..], fl) {
      var k :| 0 <= k <= |s[1..]| && Fits(tokens, s[1..][k..], fl);
      assert s[k..][1..] == s[1..][k..];
      assert Fits([Any] + tokens, s[k..], fl);
    }
  }

  /** What is left to match; special says that a period at n must be matched explicitly. */
  ghost predicate Rest(pattern: string, p: nat, s: string, n: nat, special: bool, fl: Flags)
    requires p <= |pattern| && n <= |s|
  {
    match Tokens(pattern, p, fl)
    case None => false
    case Some(tokens) =>
      Fits(tokens, s[n..], fl) && (special && n < |s| && s[n] == '.' ==> tokens != [] && tokens[0].Lit?)
  }

  /** The same after a star has been read. */
  ghost predicate StarRest(pattern: string, p: nat, s: string, n: nat, fl: Flags)
    requires p <= |pattern| && n <= |s|
  {
    match Tokens(pattern, p, fl)
    case None => false
    case Some(tokens) => Fits([Star] + tokens, s[n..], fl)
  }

  /** Reading one token. */
  lemma RestStep(pattern: string, p: nat, s: string, n: nat, special: bool, fl: Flags)
    requires p < |pattern| && n <= |s| && !(pattern[p] == '\\' && !fl.noEscape && p + 1 == |pattern|)
    ensures var t := TokenAt(pattern, p, fl);
      var next := if pattern[p] == '\\' && !fl.noEscape then p + 2 else p + 1;
      && (t.Any? ==> (Rest(pattern, p, s, n, special, fl) <==>
            n < |s| && !(special && s[n] == '.') && Rest(pattern, next, s, n + 1, false, fl)))
      && (t.Lit? ==> (Rest(pattern, p, s, n, special, fl) <==>
            n < |s| && Fold(s[n], fl) == t.c && Rest(pattern, next, s, n + 1, false, fl)))
      && (t.Star? ==> (Rest(pattern, p, s, n, special, fl) <==>
            !(special && n < |s| && s[n] == '.') && StarRest(pattern, next, s, n, fl)))
  {
    var next := if pattern[p] == '\\' && !fl.noEscape then p + 2 else p + 1;
    if Tokens(pattern, next, fl).Some? {
      var rest := Tokens(pattern, next, fl).value;
      assert ([TokenAt(pattern, p, fl)] + rest)[1..] == rest;
      assert n < |s| ==> s[n..][1..] == s[n + 1..];
    }
  }

  /** Reading a wildcard after a star. */
  lemma StarStep(pattern: string, p: nat, s: string, n: nat, fl: Flags)
    requires p < |pattern| && n <= |s| && pattern[p] in {'?', '*'}
    ensures pattern[p] == '*' ==> (StarRest(pattern, p, s, n, fl) <==> StarRest(pattern, p + 1, s, n, fl))
    ensures pattern[p] == '?' ==>
      (StarRest(pattern, p, s, n, fl) <==> n < |s| && StarRest(pattern, p + 1, s, n + 1, fl))
  {
    if Tokens(pattern, p + 1, fl).Some? {
      var rest := Tokens(pattern, p + 1, fl).value;
      assert [Star] + ([Star] + rest) == [Star, Star] + rest && [Star] + ([Any] + rest) == [Star, Any] + rest;
      StarStar(rest, s[n..], fl);
      StarAny(rest, s[n..], fl);
      assert n < |s| ==> s[n..][1..] == s[n + 1..];
    }
  }

  /** A star stands for one more character, or the rest of the pattern matches here. */
  lemma StarHere(pattern: string, p: nat, s: string, n: nat, fl: Flags)
    requires p <= |pattern| && n < |s|
    ensures StarRest(pattern, p, s, n, fl) <==> Rest(pattern, p, s, n, false, fl) || StarRest(pattern, p, s, n + 1, fl)
  {
    if Tokens(pattern, p, fl).Some? {
      var tokens := Tokens(pattern, p, fl).value;
      assert ([Star] + tokens)[1..] == tokens;
      if StarRest(pattern, p, s, n, fl) {
        var k :| 0 <= k <= |s[n..]| && Fits(tokens, s[n..][k..], fl);
        if k > 0 {
          assert s[n..][k..] == s[n + 1..][k - 1..];
        } else {
          assert s[n..][0..] == s[n..];
        }
      }
      if StarRest(pattern, p, s, n + 1, fl) {
        var k :| 0 <= k <= |s[n + 1..]| && Fits(tokens, s[n + 1..][k..], fl);
        assert s[n..][k + 1..] == s[n + 1..][k..];
      }
      if Fits(tokens, s[n..], fl) {
        assert s[n..][0..] == s[n..];
      }
    }
  }

  /** At the end of the string a star leaves nothing for a character of the pattern. */
  lemma StarAtEnd(pattern: string, p: nat, s: string, fl: Flags)
    requires p <= |pattern|
    ensures StarRest(pattern, p, s, |s|, fl) <==> Rest(pattern, p, s, |s|, false, fl)
  {
    if Tokens(pattern, p, fl).Some? {
      var tokens := Tokens(pattern, p, fl).value;
      assert ([Star] + tokens)[1..] == tokens;
      assert s[|s|..] == "" && ""[0..] == "";
    }
  }

  /** The part of internal_fnmatch that has read a star just before p. */
  method MatchStar(pattern: string, p0: nat, s: string, start: nat, n0: nat, noLeadingPeriod: bool, fl: Flags)
    returns (matched: bool)
    requires p0 <= |pattern| && n0 <= |s| && NoBracket(pattern, p0, fl)
    ensures matched <==> StarRest(pattern, p0, s, n0, fl)
    decreases |pattern| - p0, 1
  {
    var p, n := p0, n0;
    while p < |pattern| && pattern[p] in {'?', '*'}
      invariant p0 <= p <= |pattern| && n0 <= n <= |s| && NoBracket(pattern, p, fl)
      invariant StarRest(pattern, p, s, n, fl) <==> StarRest(pattern, p0, s, n0, fl)
    {
      StarStep(pattern, p, s, n, fl);
      if pattern[p] == '?' {
        if n == |s| { return false; }
        n := n + 1;
      }
      p := p + 1;
    }
    if p == |pattern| {
      StarIsAll(s[n..], fl);
      return true;
    }
    if pattern[p] == '[' { assert false; }
    var quotes := pattern[p] == '\\' && !fl.noEscape;
    if quotes && p + 1 == |pattern| { return false; }
    var c := Fold(if quotes then pattern[p + 1] else pattern[p], fl);
    while n < |s|
      invariant n0 <= n <= |s|
      invariant StarRest(pattern, p, s, n, fl) <==> StarRest(pattern, p0, s, n0, fl)
    {
      StarHere(pattern, p, s, n, fl);
      RestStep(pattern, p, s, n, false, fl);
      if Fold(s[n], fl) == c {
        RestStep(pattern, p, s, n, noLeadingPeriod && n == start, fl);
        var here := InternalFnmatch(pattern, p, s, n, noLeadingPeriod && n == start, fl);
        if here { return true; }
      }
      n := n + 1;
    }
    StarAtEnd(pattern, p, s, fl);
    RestStep(pattern, p, s, n, false, fl);
    matched := false;
  }

  lemma StarIsAll(s: string, fl: Flags)
    ensures Fits([Star] + [], s, fl)
  {
    assert ([Star] + [])[1..] == [];
    assert s[|s|..] == "";
  }

  method InternalFnmatch(pattern: string, p0: nat, s: string, n0: nat, noLeadingPeriod: bool, fl: Flags)
    returns (matched: bool)
    requires p0 <= |pattern| && n0 <= |s| && NoBracket(pattern, p0, fl)
    ensures matched <==> Rest(pattern, p0, s, n0, noLeadingPeriod, fl)
    decreases |pattern| - p0, 0
  {
    var p, n := p0, n0;
    while p < |pattern|
      invariant p0 <= p <= |pattern| && n0 <= n <= |s| && NoBracket(pattern, p, fl)
      invariant Rest(pattern, p, s, n, noLeadingPeriod && n == n0, fl) <==>
        Rest(pattern, p0, s, n0, noLeadingPeriod, fl)
    {
      var c := Fold(pattern[p], fl);
      if c == '\\' && !fl.noEscape && p + 1 == |pattern| { return false; }
      RestStep(pattern, p, s, n, noLeadingPeriod && n == n0, fl);
      p := p + 1;
      if c == '?' {
        if n == |s| { return false; }
        if s[n] == '.' && noLeadingPeriod && n == n0 { return false; }
      } else if c == '*' {
        if n < |s| && s[n] == '.' && noLeadingPeriod && n == n0 { return false; }
        matched := MatchStar(pattern, p, s, n0, n, noLeadingPeriod, fl);
        return;
      } else if c == '[' {
        assert false;
      } else {
        if c == '\\' && !fl.noEscape {
          c := Fold(pattern[p], fl);
          p := p + 1;
        }
        if n == |s| || Fold(s[n], fl) != c { return false; }
      }
      n := n + 1;
    }
    matched := n == |s|;
  }

  /** fnmatch decides the matching relation. */
  method Fnmatch(pattern: string, s: string, period: bool, fl: Flags) returns (matched: bool)
    requires NoBracket(pattern, 0, fl)
    ensures matched <==> Matches(pattern, s, period, fl)
  {
    matched := InternalFnmatch(pattern, 0, s, 0, period, fl);
    assert s[0..] == s;
    if Tokens(pattern, 0, fl).Some? {
      FitsIsSpells(Tokens(pattern, 0, fl).value, s, fl);
    }
  }
}
