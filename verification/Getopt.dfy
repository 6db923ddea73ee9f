/**
 * getopt for short options in PERMUTE order (gnumake/src/getopt.c): a scanner that is
 * called again and again, keeps its position between calls and reorders argv on the way.
 */
module Getopt {

  import opened GetoptExchange
  import opened Wrappers

  /** How an option character is listed in the option string. */
  datatype Kind = Unlisted | Flag | Required | Optional

  /** Position of the first occurrence of c, or the length of the string. */
  function IndexOf(s: string, c: char): (i: nat)
    ensures i <= |s|
    ensures i < |s| ==> s[i] == c
    ensures forall j :: 0 <= j < i ==> s[j] != c
  {
    if s == "" || s[0] == c then 0 else 1 + IndexOf(s[1..], c)
  }

  function KindOf(optstring: string, c: char): Kind {
    var i := IndexOf(optstring, c);
    if i == |optstring| || c == ':' then Unlisted
    else if i + 1 < |optstring| && optstring[i + 1] == ':' then
      if i + 2 < |optstring| && optstring[i + 2] == ':' then Optional else Required
    else Flag
  }

  /** An option character is a flag, or has an argument if one colon follows it, or may have one if two do. */
  lemma KindListed(pre: string, c: char, post: string)
    requires c !in pre && c != ':'
    ensures (post == "" || post[0] != ':') ==> KindOf(pre + [c] + post, c) == Flag
    ensures post == ":" || (|post| > 1 && post[0] == ':' && post[1] != ':') ==> KindOf(pre + [c] + post, c) == Required
    ensures |post| > 1 && post[0] == ':' && post[1] == ':' ==> KindOf(pre + [c] + post, c) == Optional
  {
    var s := pre + [c] + post;
    assert s[|pre|] == c;
    forall j | 0 <= j < |pre| ensures s[j] != c {
      assert s[j] == pre[j];
    }
    assert IndexOf(s, c) == |pre|;
    assert s[|pre| + 1..] == post;
  }

  lemma KindUnlisted(optstring: string, c: char)
    ensures KindOf(optstring, c) == Unlisted <==> c !in optstring || c == ':'
  {
    if c in optstring {
      var j :| 0 <= j < |optstring| && optstring[j] == c;
    }
  }

  /** Codes returned to the caller; `Option` carries optarg, the failures carry optopt. */
  datatype Code = Opt(c: char, arg: Option<string>) | Invalid(c: char) | MissingArg(c: char, code: char)

  /** "W;" asks for "-W foo" to be read as the long option "--foo". */
  predicate LongViaW(optstring: string) {
    var i := IndexOf(optstring, 'W');
    i + 1 < |optstring| && optstring[i + 1] == ';'
  }

  function MissingCode(optstring: string, c: char): Code {
    MissingArg(c, if optstring != "" && optstring[0] == ':' then ':' else '?')
  }

  /** An argv element without option syntax. */
  predicate NonOption(a: string) {
    a == "" || a[0] != '-' || |a| == 1
  }

  // ---- reference: one left-to-right reading of the arguments, no permutation ----

  /** Codes delivered, elements that belong to options (with any "--"), and operands. */
  datatype Reading = Reading(codes: seq<Code>, opts: seq<string>, operands: seq<string>)

  function Join(a: Reading, b: Reading): Reading {
    Reading(a.codes + b.codes, a.opts + b.opts, a.operands + b.operands)
  }

  function Read(optstring: string, args: seq<string>): Reading
    decreases |args|, 0
  {
    if args == [] then Reading([], [], [])
    else if NonOption(args[0]) then Join(Reading([], [], [args[0]]), Read(optstring, args[1..]))
    else if args[0] == "--" then Reading([], ["--"], args[1..])
    else ReadElement(optstring, args[0], args[0][1..], args[1..])
  }

  /** Reading on from the unread characters of an option element. */
  function ReadElement(optstring: string, elem: string, chars: string, rest: seq<string>): Reading
    requires chars != ""
    decreases |rest|, 1, |chars|, 0
  {
    var c, tail := chars[0], chars[1..];
    match KindOf(optstring, c)
    case Unlisted => ReadOn(optstring, elem, Invalid(c), tail, rest)
    case Flag => ReadOn(optstring, elem, Opt(c, None), tail, rest)
    case Optional =>
      Join(Reading([Opt(c, if tail == "" then None else Some(tail))], [elem], []), Read(optstring, rest))
    case Required =>
      if tail != "" then Join(Reading([Opt(c, Some(tail))], [elem], []), Read(optstring, rest))
      else if rest == [] then Reading([MissingCode(optstring, c)], [elem], [])
      else Join(Reading([Opt(c, Some(rest[0]))], [elem, rest[0]], []), Read(optstring, rest[1..]))
  }

  function ReadOn(optstring: string, elem: string, code: Code, tail: string, rest: seq<string>): Reading
    decreases |rest|, 1, |tail|, 1
  {
    if tail == "" then Join(Reading([code], [elem], []), Read(optstring, rest))
    else Join(Reading([code], [], []), ReadElement(optstring, elem, tail, rest))
  }

  lemma JoinAssoc(a: Reading, b: Reading, c: Reading)
    ensures Join(Join(a, b), c) == Join(a, Join(b, c))
  {}

  lemma TakeStep(a: Reading, code: Code, taken: seq<string>)
    ensures Join(a, Reading([code], taken, [])) == Reading(a.codes + [code], a.opts + taken, a.operands)
  {
    assert a.operands + [] == a.operands;
  }

  lemma JoinNothing(a: Reading)
    ensures Join(a, Reading([], [], [])) == a
  {}

  /** s is a merge of a and b that keeps the order of both. */
  ghost predicate Interleaves(s: seq<string>, a: seq<string>, b: seq<string>) {
    if s == [] then a == [] && b == []
    else
      || (a != [] && a[0] == s[0] && Interleaves(s[1..], a[1..], b))
      || (b != [] && b[0] == s[0] && Interleaves(s[1..], a, b[1..]))
  }

  lemma TakeLeft(x: string, s: seq<string>, a: seq<string>, b: seq<string>)
    requires Interleaves(s, a, b)
    ensures Interleaves([x] + s, [x] + a, b)
  {
    assert ([x] + s)[1..] == s && ([x] + a)[1..] == a;
  }

  lemma TakeRight(x: string, s: seq<string>, a: seq<string>, b: seq<string>)
    requires Interleaves(s, a, b)
    ensures Interleaves([x] + s, a, [x] + b)
  {
    assert ([x] + s)[1..] == s && ([x] + b)[1..] == b;
  }

  lemma {:induction false} AllRight(s: seq<string>)
    ensures Interleaves(s, [], s)
  {
    if s != [] { AllRight(s[1..]); }
  }

  /** Reading splits the arguments into two order-preserving parts and drops nothing. */
  lemma {:induction false} ReadInterleaves(optstring: string, args: seq<string>)
    ensures Interleaves(args, Read(optstring, args).opts, Read(optstring, args).operands)
    decreases |args|, 0
  {
    if args != [] {
      var a, rest := args[0], args[1..];
      assert args == [a] + rest;
      if NonOption(a) {
        ReadInterleaves(optstring, rest);
        TakeRight(a, rest, Read(optstring, rest).opts, Read(optstring, rest).operands);
        assert [] + Read(optstring, rest).opts == Read(optstring, rest).opts;
      } else if a == "--" {
        AllRight(rest);
        TakeLeft(a, rest, [], rest);
      } else {
        ReadElementInterleaves(optstring, a, a[1..], rest);
      }
    }
  }

  lemma {:induction false} ReadElementInterleaves(optstring: string, elem: string, chars: string, rest: seq<string>)
    requires chars != ""
    ensures var r := ReadElement(optstring, elem, chars, rest); Interleaves([elem] + rest, r.opts, r.operands)
    decreases |rest|, 1, |chars|
  {
    var r := ReadElement(optstring, elem, chars, rest);
    var kind, tail := KindOf(optstring, chars[0]), chars[1..];
    if (kind == Unlisted || kind == Flag) && tail != "" {
      ReadElementInterleaves(optstring, elem, tail, rest);
      var code := if kind == Flag then Opt(chars[0], None) else Invalid(chars[0]);
      assert r == ReadOn(optstring, elem, code, tail, rest);
      assert r.opts == ReadElement(optstring, elem, tail, rest).opts;
      assert r.operands == ReadElement(optstring, elem, tail, rest).operands;
    } else if kind == Required && tail == "" && rest != [] {
      var next := Read(optstring, rest[1..]);
      ReadInterleaves(optstring, rest[1..]);
      TakeLeft(rest[0], rest[1..], next.opts, next.operands);
      assert rest == [rest[0]] + rest[1..];
      TakeLeft(elem, rest, [rest[0]] + next.opts, next.operands);
      assert r.opts == [elem] + ([rest[0]] + next.opts) && r.operands == next.operands;
    } else {
      var next := Read(optstring, rest);
      ReadInterleaves(optstring, rest);
      TakeLeft(elem, rest, next.opts, next.operands);
      if kind == Flag || kind == Unlisted {
        var code := if kind == Flag then Opt(chars[0], None) else Invalid(chars[0]);
        assert r == ReadOn(optstring, elem, code, tail, rest);
      }
      assert r.opts == [elem] + next.opts && r.operands == next.operands;
    }
  }

  lemma {:induction false} InterleavesMultiset(s: seq<string>, a: seq<string>, b: seq<string>)
    requires Interleaves(s, a, b)
    ensures multiset(s) == multiset(a) + multiset(b)
  {
    if s != [] {
      assert s == [s[0]] + s[1..];
      if a != [] && a[0] == s[0] && Interleaves(s[1..], a[1..], b) {
        InterleavesMultiset(s[1..], a[1..], b);
        assert a == [a[0]] + a[1..];
      } else {
        InterleavesMultiset(s[1..], a, b[1..]);
        assert b == [b[0]] + b[1..];
      }
    }
  }

  /** The final argv is a permutation of the original one that keeps the order of each part. */
  lemma RunPermutes(optstring: string, args: seq<string>)
    ensures var r := Read(optstring, args);
      Interleaves(args, r.opts, r.operands) && multiset(r.opts + r.operands) == multiset(args)
  {
    ReadInterleaves(optstring, args);
    InterleavesMultiset(args, Read(optstring, args).opts, Read(optstring, args).operands);
  }

  // ---- the scanner ----

  lemma RotatedSlices(s: seq<string>, b: nat, m: nat, t: nat)
    requires 1 <= b <= m <= t <= |s|
    ensures Rotated(s, b, m, t)[1..b + (t - m)] == s[1..b] + s[m..t]
    ensures Rotated(s, b, m, t)[b + (t - m)..t] == s[b..m]
    ensures Rotated(s, b, m, t)[t..] == s[t..]
  {}

  /** exchange, seen from the three blocks it leaves behind the program name. */
  method MoveBlocks(argv: array<string>, first: nat, last: nat, optind: nat)
    requires 1 <= first <= last <= optind <= argv.Length
    modifies argv
    ensures argv[1..first + (optind - last)] == old(argv[1..first]) + old(argv[last..optind])
    ensures argv[first + (optind - last)..optind] == old(argv[first..last])
    ensures argv[optind..] == old(argv[optind..])
  {
    ghost var s := argv[..];
    RotatedSlices(s, first, last, optind);
    Exchange(argv, first, last, optind);
    ghost var k := first + (optind - last);
    assert argv[1..k] == argv[..][1..k] && argv[k..optind] == argv[..][k..optind];
    assert argv[optind..] == argv[..][optind..];
    assert s[1..first] == old(argv[1..first]) && s[last..optind] == old(argv[last..optind]);
    assert s[first..last] == old(argv[first..last]) && s[optind..] == old(argv[optind..]);
  }

  function Min(a: nat, b: nat): nat {
    if a > b then b else a
  }

  lemma ThreeBlocks(argv: array<string>, first: nat, last: nat)
    requires 1 <= first <= last <= argv.Length
    ensures argv[1..] == argv[1..first] + (argv[first..last] + argv[last..])
  {
    assert argv[first..] == argv[first..last] + argv[last..];
  }

  class Scanner {
    const optstring: string
    const argv: array<string>
    var optind: nat
    var nextchar: string
    var firstNonopt: nat
    var lastNonopt: nat
    /** The left-to-right reading of everything the caller passed. */
    ghost const whole: Reading
    /** The part of it that the calls so far have accounted for. */
    ghost var read: Reading

    /** What a left-to-right reading would still deliver. */
    ghost function Pending(): Reading
      requires optind <= argv.Length && (nextchar != "" ==> optind < argv.Length)
      reads this, argv
    {
      if nextchar == "" then Read(optstring, argv[optind..])
      else ReadElement(optstring, argv[optind], nextchar, argv[optind + 1..])
    }

    /** Between two calls: options read so far, the operands skipped, more options, unread elements. */
    ghost predicate Valid()
      reads this, argv
    {
      && 1 <= firstNonopt <= lastNonopt <= optind <= argv.Length
      && (nextchar != "" ==> optind < argv.Length)
      && argv[1..firstNonopt] + argv[lastNonopt..optind] == read.opts
      && argv[firstNonopt..lastNonopt] == read.operands
      && Join(read, Pending()) == whole
    }

    /** After the last call: options first, then operands, both in their original order. */
    ghost predicate Finished()
      reads this, argv
    {
      && read == whole
      && argv.Length >= 1
      && argv[1..] == read.opts + read.operands
      && optind == 1 + |read.opts|
    }

    /** No options are left between the operands and the unread elements. */
    ghost predicate Gathered()
      reads this, argv
    {
      && 1 <= firstNonopt <= optind <= argv.Length
      && nextchar == ""
      && argv[1..firstNonopt] == read.opts
      && argv[firstNonopt..optind] == read.operands
      && Join(read, Read(optstring, argv[optind..])) == whole
    }

    /** A scanner before its first call, with the positions its first call starts from. */
    constructor (optstring: string, argv: array<string>)
      requires argv.Length >= 1
      requires optstring != "" ==> optstring[0] !in {'-', '+'}
      requires !LongViaW(optstring)
      ensures this.optstring == optstring && this.argv == argv && whole == Read(optstring, argv[1..])
      ensures Valid() && read == Reading([], [], []) && optind == 1 && nextchar == ""
    {
      this.optstring := optstring;
      this.argv := argv;
      whole := Read(optstring, argv[1..]);
      read := Reading([], [], []);
      optind := 1;
      nextchar := "";
      firstNonopt, lastNonopt := 1, 1;
    }

    /** Options processed since the operands were skipped move in front of them. */
    method Gather()
      requires Valid() && nextchar == ""
      modifies this`firstNonopt, this`lastNonopt, argv
      ensures Gathered() && optind == old(optind)
    {
      if firstNonopt != lastNonopt && lastNonopt != optind {
        MoveBlocks(argv, firstNonopt, lastNonopt, optind);
        firstNonopt := firstNonopt + (optind - lastNonopt);
        lastNonopt := optind;
      } else if lastNonopt != optind {
        assert argv[1..optind] == argv[1..firstNonopt] + argv[lastNonopt..optind];
        firstNonopt := optind;
      }
    }

    /** An operand is read. */
    lemma SkipOne(args: seq<string>, rest: seq<string>, a: string)
      requires args != [] && args[0] == a && args[1..] == rest && NonOption(a)
      requires Join(read, Read(optstring, args)) == whole
      ensures Join(Join(read, Reading([], [], [a])), Read(optstring, rest)) == whole
      ensures Join(read, Reading([], [], [a])) == Reading(read.codes, read.opts, read.operands + [a])
    {
      JoinAssoc(read, Reading([], [], [a]), Read(optstring, rest));
    }

    /** Skip further operands and extend the range skipped before. */
    method SkipOperands()
      requires Gathered()
      modifies this`optind, this`lastNonopt, this`read
      ensures Gathered() && lastNonopt == optind && read.codes == old(read.codes)
      ensures optind < argv.Length ==> !NonOption(argv[optind])
    {
      while optind < argv.Length && NonOption(argv[optind])
        invariant Gathered() && read.codes == old(read.codes)
      {
        ghost var a := argv[optind];
        SkipOne(argv[optind..], argv[optind + 1..], a);
        read := Join(read, Reading([], [], [a]));
        assert argv[firstNonopt..optind + 1] == argv[firstNonopt..optind] + [a];
        optind := optind + 1;
      }
      lastNonopt := optind;
    }

    /** "--" is exchanged with the operands skipped before it, as if it were an option. */
    method PlaceTerminator()
      requires Gathered() && lastNonopt == optind < argv.Length && argv[optind] == "--"
      modifies this`optind, this`firstNonopt, this`lastNonopt, argv
      ensures 1 <= firstNonopt <= optind <= argv.Length
      ensures argv[1..firstNonopt] == read.opts + ["--"]
      ensures argv[firstNonopt..optind] == read.operands
      ensures argv[optind..] == old(argv[optind + 1..])
    {
      assert argv[optind..optind + 1] == ["--"];
      optind := optind + 1;
      if firstNonopt != lastNonopt && lastNonopt != optind {
        MoveBlocks(argv, firstNonopt, lastNonopt, optind);
        firstNonopt := firstNonopt + (optind - lastNonopt);
        lastNonopt := optind;
      } else if firstNonopt == lastNonopt {
        firstNonopt := optind;
      }
    }

    /** "--": an option that ends the scan; everything behind it is an operand. */
    method EndOfOptions()
      requires Gathered() && lastNonopt == optind < argv.Length && argv[optind] == "--"
      modifies this, argv
      ensures Finished() && read.codes == old(read.codes)
    {
      ghost var rest := argv[optind + 1..];
      ghost var last := Reading([], ["--"], rest);
      assert Read(optstring, argv[optind..]) == last by { assert argv[optind..][1..] == rest; }
      PlaceTerminator();
      ThreeBlocks(argv, firstNonopt, optind);
      lastNonopt := argv.Length;
      optind := argv.Length;
      if firstNonopt != lastNonopt { optind := firstNonopt; }
      read := Join(read, last);
    }

    /** Every element has been looked at. */
    method EndOfArguments()
      requires Gathered() && lastNonopt == optind == argv.Length
      modifies this`optind
      ensures Finished() && read.codes == old(read.codes)
    {
      JoinNothing(read);
      assert argv[1..] == argv[1..firstNonopt] + argv[firstNonopt..optind];
      if firstNonopt != lastNonopt { optind := firstNonopt; }
    }

    /** The part of the call that moves on to the next argv element. */
    method Advance() returns (done: bool)
      requires Valid() && nextchar == ""
      modifies this, argv
      ensures read.codes == old(read.codes)
      ensures done ==> Finished()
      ensures !done ==> Valid() && nextchar != ""
    {
      lastNonopt := Min(lastNonopt, optind);
      firstNonopt := Min(firstNonopt, optind);
      Gather();
      SkipOperands();
      if optind != argv.Length && argv[optind] == "--" {
        EndOfOptions();
        return true;
      }
      if optind == argv.Length {
        EndOfArguments();
        return true;
      }
      StartElement();
      return false;
    }

    /** The element at optind is an option: the scan enters it. */
    method StartElement()
      requires Gathered() && lastNonopt == optind < argv.Length && !NonOption(argv[optind]) && argv[optind] != "--"
      modifies this`nextchar
      ensures Valid() && nextchar != ""
    {
      nextchar := argv[optind][1..];
      assert argv[optind..][1..] == argv[optind + 1..];
      assert argv[lastNonopt..optind] == [];
      assert argv[1..firstNonopt] + [] == argv[1..firstNonopt];
    }

    /** Appending the next k elements to the options taken so far. */
    lemma Taken(k: nat)
      requires 1 <= firstNonopt <= lastNonopt <= optind && optind + k <= argv.Length
      ensures argv[1..firstNonopt] + argv[lastNonopt..optind + k]
           == (argv[1..firstNonopt] + argv[lastNonopt..optind]) + argv[optind..optind + k]
    {
      assert argv[lastNonopt..optind + k] == argv[lastNonopt..optind] + argv[optind..optind + k];
    }

    /** The element under the scan is finished, together with the argument it took from the next one. */
    method CloseElement(ghost code: Code, k: nat)
      requires Valid() && nextchar != "" && optind + k <= argv.Length
      requires Pending() ==
        Join(Reading([code], argv[optind..optind + k], []), Read(optstring, argv[optind + k..]))
      modifies this`optind, this`nextchar, this`read
      ensures Valid() && nextchar == "" && read.codes == old(read.codes) + [code]
    {
      ghost var step := Reading([code], argv[optind..optind + k], []);
      ghost var rest := Read(optstring, argv[optind + k..]);
      JoinAssoc(read, step, rest);
      Taken(k);
      TakeStep(read, code, argv[optind..optind + k]);
      read := Join(read, step);
      optind := optind + k;
      nextchar := "";
      assert Pending() == rest;
    }

    /** A character of a cluster has been delivered and more characters follow. */
    method StayInElement(ghost code: Code)
      requires Valid() && |nextchar| > 1 && optind < argv.Length
      requires Pending() ==
        Join(Reading([code], [], []), ReadElement(optstring, argv[optind], nextchar[1..], argv[optind + 1..]))
      modifies this`nextchar, this`read
      ensures Valid() && read.codes == old(read.codes) + [code]
    {
      ghost var step := Reading([code], [], []);
      JoinAssoc(read, step, ReadElement(optstring, argv[optind], nextchar[1..], argv[optind + 1..]));
      read := Join(read, step);
      nextchar := nextchar[1..];
    }

    /** Decode the next character of the option element under the scan. */
    method ShortOption() returns (code: Code)
      requires Valid() && nextchar != ""
      modifies this`optind, this`nextchar, this`read
      ensures Valid() && read.codes == old(read.codes) + [code]
    {
      var c, tail := nextchar[0], nextchar[1..];
      var kind := KindOf(optstring, c);
      ghost var rest := argv[optind + 1..];
      assert argv[optind..optind + 1] == [argv[optind]];
      if kind == Unlisted || kind == Flag {
        code := if kind == Unlisted then Invalid(c) else Opt(c, None);
        assert Pending() == ReadOn(optstring, argv[optind], code, tail, rest);
        if tail == "" { CloseElement(code, 1); } else { StayInElement(code); }
      } else if kind == Optional {
        code := Opt(c, if tail == "" then None else Some(tail));
        CloseElement(code, 1);
      } else if tail != "" {
        code := Opt(c, Some(tail));
        CloseElement(code, 1);
      } else if optind + 1 == argv.Length {
        code := MissingCode(optstring, c);
        assert rest == [];
        CloseElement(code, 1);
      } else {
        code := Opt(c, Some(argv[optind + 1]));
        assert argv[optind..optind + 2] == [argv[optind], argv[optind + 1]] && rest[1..] == argv[optind + 2..];
        CloseElement(code, 2);
      }
    }

    /** One call of getopt: the next code, or None for the return value -1. */
    method Next() returns (r: Option<Code>)
      requires Valid()
      modifies this, argv
      ensures r.Some? ==> Valid() && read.codes == old(read.codes) + [r.value]
      ensures r.None? ==> Finished() && read.codes == old(read.codes)
    {
      if nextchar == "" {
        var done := Advance();
        if done { return None; }
      }
      var code := ShortOption();
      r := Some(code);
    }
  }

  /**
   * A whole run: the calls deliver the codes of the left-to-right reading, and argv ends as
   * options with their arguments in original order, then any "--", then the operands in
   * original order, with optind at the first operand.
   */
  method Run(optstring: string, argv: array<string>) returns (codes: seq<Code>, optind: nat)
    requires argv.Length >= 1
    requires optstring != "" ==> optstring[0] !in {'-', '+'}
    requires !LongViaW(optstring)
    modifies argv
    ensures codes == Read(optstring, old(argv[1..])).codes
    ensures argv[1..] == Read(optstring, old(argv[1..])).opts + Read(optstring, old(argv[1..])).operands
    ensures optind == 1 + |Read(optstring, old(argv[1..])).opts|
    ensures multiset(argv[1..]) == multiset(old(argv[1..]))
  {
    RunPermutes(optstring, argv[1..]);
    var s := new Scanner(optstring, argv);
    codes := [];
    while true
      invariant s.Valid() && s.argv == argv && s.optstring == optstring && fresh(s)
      invariant s.whole == Read(optstring, old(argv[1..])) && codes == s.read.codes
      decreases |s.whole.codes| - |codes|
    {
      assert |codes| + |s.Pending().codes| == |s.whole.codes|;
      var r := s.Next();
      if r.None? { return codes, s.optind; }
      assert |s.read.codes| + |s.Pending().codes| == |s.whole.codes|;
      codes := codes + [r.value];
    }
  }

  // ---- writing a command line and reading it back ----

  /** The last option of an element: without argument, with one in the same element, or in the next; or no option. */
  datatype Last = Bare(c: char) | Attached(c: char, arg: string) | Detached(c: char, arg: string) | Unknown(c: char)

  /** What a user may write: a cluster of flags that ends in any option, or an operand. */
  datatype Given = Options(flags: string, last: Last) | Operand(text: string)

  /** The options are given the arguments their kinds allow. */
  predicate Allowed(optstring: string, g: Given) {
    match g
    case Operand(text) => text == "" || text[0] != '-' || text == "-"
    case Options(flags, last) =>
      && (forall i :: 0 <= i < |flags| ==> KindOf(optstring, flags[i]) == Flag)
      && (flags + [last.c])[0] != '-'
      && LastAllowed(optstring, last)
  }

  predicate LastAllowed(optstring: string, last: Last) {
    match last
    case Bare(c) => KindOf(optstring, c) in {Flag, Optional}
    case Attached(c, arg) => arg != "" && KindOf(optstring, c) in {Required, Optional}
    case Detached(c, _) => KindOf(optstring, c) == Required
    case Unknown(c) => c !in optstring || c == ':'
  }

  predicate AllAllowed(optstring: string, given: seq<Given>) {
    forall g :: g in given ==> Allowed(optstring, g)
  }

  function LastText(last: Last): (s: string)
    ensures s != "" && s[0] == last.c
  {
    [last.c] + if last.Attached? then last.arg else ""
  }

  function Extra(last: Last): seq<string> {
    if last.Detached? then [last.arg] else []
  }

  /** The argv elements. */
  function Written(g: Given): seq<string> {
    match g
    case Operand(text) => [text]
    case Options(flags, last) => ["-" + (flags + LastText(last))] + Extra(last)
  }

  function FlagCodes(flags: string): seq<Code> {
    if flags == "" then [] else [Opt(flags[0], None)] + FlagCodes(flags[1..])
  }

  function LastCode(last: Last): Code {
    if last.Unknown? then Invalid(last.c) else Opt(last.c, if last.Bare? then None else Some(last.arg))
  }

  /** What is meant by it. */
  function Meant(g: Given): Reading {
    match g
    case Operand(text) => Reading([], [], [text])
    case Options(flags, last) => Reading(FlagCodes(flags) + [LastCode(last)], Written(g), [])
  }

  function WrittenAll(given: seq<Given>): seq<string> {
    if given == [] then [] else Written(given[0]) + WrittenAll(given[1..])
  }

  function MeantAll(given: seq<Given>): Reading {
    if given == [] then Reading([], [], []) else Join(Meant(given[0]), MeantAll(given[1..]))
  }

  /** What stands behind an optional "--" is not looked at. */
  function End(rest: Option<seq<string>>): seq<string> {
    if rest.None? then [] else ["--"] + rest.value
  }

  function MeantEnd(rest: Option<seq<string>>): Reading {
    if rest.None? then Reading([], [], []) else Reading([], ["--"], rest.value)
  }

  lemma ReadLast(optstring: string, elem: string, last: Last, rest: seq<string>)
    requires LastAllowed(optstring, last)
    ensures ReadElement(optstring, elem, LastText(last), Extra(last) + rest) ==
      Join(Reading([LastCode(last)], [elem] + Extra(last), []), Read(optstring, rest))
  {
    var text := LastText(last);
    KindUnlisted(optstring, last.c);
    assert text[1..] == if last.Attached? then last.arg else "";
    if last.Detached? {
      assert (Extra(last) + rest)[1..] == rest && [elem] + Extra(last) == [elem, last.arg];
    } else {
      assert Extra(last) + rest == rest && [elem] + Extra(last) == [elem];
    }
  }

  lemma {:induction false} ReadCluster(optstring: string, elem: string, flags: string, last: Last, rest: seq<string>)
    requires LastAllowed(optstring, last) && forall i :: 0 <= i < |flags| ==> KindOf(optstring, flags[i]) == Flag
    ensures ReadElement(optstring, elem, flags + LastText(last), Extra(last) + rest) ==
      Join(Reading(FlagCodes(flags) + [LastCode(last)], [elem] + Extra(last), []), Read(optstring, rest))
  {
    var args, text := Extra(last) + rest, LastText(last);
    var after := Read(optstring, rest);
    if flags == "" {
      assert flags + text == text && FlagCodes(flags) + [LastCode(last)] == [LastCode(last)];
      ReadLast(optstring, elem, last, rest);
    } else {
      var tail := flags[1..] + text;
      assert (flags + text)[1..] == tail && (flags + text)[0] == flags[0];
      ReadCluster(optstring, elem, flags[1..], last, rest);
      assert ReadElement(optstring, elem, flags + text, args) ==
        Join(Reading([Opt(flags[0], None)], [], []), ReadElement(optstring, elem, tail, args));
      OneMore(Opt(flags[0], None), FlagCodes(flags[1..]) + [LastCode(last)], [elem] + Extra(last), after);
      assert [Opt(flags[0], None)] + (FlagCodes(flags[1..]) + [LastCode(last)]) == FlagCodes(flags) + [LastCode(last)];
    }
  }

  lemma OneMore(code: Code, codes: seq<Code>, opts: seq<string>, after: Reading)
    ensures Join(Reading([code], [], []), Join(Reading(codes, opts, []), after)) ==
      Join(Reading([code] + codes, opts, []), after)
  {
    JoinAssoc(Reading([code], [], []), Reading(codes, opts, []), after);
    assert [] + opts == opts;
  }

  /** One thing that was written is read, and then the rest. */
  lemma ReadGiven(optstring: string, g: Given, rest: seq<string>)
    requires Allowed(optstring, g)
    ensures Read(optstring, Written(g) + rest) == Join(Meant(g), Read(optstring, rest))
  {
    var args := Written(g) + rest;
    match g
    case Operand(text) =>
      assert args[1..] == rest;
    case Options(flags, last) =>
      var chars := flags + LastText(last);
      var elem := "-" + chars;
      assert elem[1..] == chars && args[1..] == Extra(last) + rest;
      assert chars[0] == (flags + [last.c])[0];
      assert elem[1] != '-';
      ReadCluster(optstring, elem, flags, last, rest);
  }

  /** An option that has to have an argument and is the last thing written. */
  lemma ReadMissing(optstring: string, c: char)
    requires KindOf(optstring, c) == Required && c != '-'
    ensures Read(optstring, ["-" + [c]]).codes == [MissingArg(c, if optstring[0] == ':' then ':' else '?')]
  {
    var elem: string := "-" + [c];
    var args: seq<string> := [elem];
    assert elem[1..] == [c] && [c][1..] == "" && args[1..] == [];
  }

  /** Options with the arguments their kinds allow, and operands, are read back as what they were written for. */
  lemma {:induction false} ReadWritten(optstring: string, given: seq<Given>, rest: Option<seq<string>>)
    requires AllAllowed(optstring, given)
    ensures Read(optstring, WrittenAll(given) + End(rest)) == Join(MeantAll(given), MeantEnd(rest))
  {
    if given == [] {
      assert [] + End(rest) == End(rest);
      ReadEnd(optstring, rest);
    } else {
      Regroup(Written(given[0]), WrittenAll(given[1..]), End(rest));
      ReadGiven(optstring, given[0], WrittenAll(given[1..]) + End(rest));
      ReadWritten(optstring, given[1..], rest);
      JoinAssoc(Meant(given[0]), MeantAll(given[1..]), MeantEnd(rest));
    }
  }

  lemma ReadEnd(optstring: string, rest: Option<seq<string>>)
    ensures Read(optstring, End(rest)) == MeantEnd(rest) == Join(Reading([], [], []), MeantEnd(rest))
  {
    if rest.Some? { assert End(rest)[1..] == rest.value; }
  }

  lemma Regroup(a: seq<string>, b: seq<string>, c: seq<string>)
    ensures (a + b) + c == a + (b + c)
  {
  }

  /** Run on what was written, getopt delivers what was meant, and leaves the operands behind the options. */
  method RunWritten(optstring: string, given: seq<Given>, rest: Option<seq<string>>, argv: array<string>)
    returns (codes: seq<Code>, optind: nat)
    requires argv.Length >= 1 && argv[1..] == WrittenAll(given) + End(rest) && AllAllowed(optstring, given)
    requires optstring != "" ==> optstring[0] !in {'-', '+'}
    requires !LongViaW(optstring)
    modifies argv
    ensures codes == MeantAll(given).codes && optind <= argv.Length
    ensures argv[optind..] == MeantAll(given).operands + if rest.None? then [] else rest.value
  {
    ReadWritten(optstring, given, rest);
    codes, optind := Run(optstring, argv);
    ghost var r := Join(MeantAll(given), MeantEnd(rest));
    assert argv[1..][|r.opts|..] == r.operands;
    assert r.codes == MeantAll(given).codes + [];
  }
}
