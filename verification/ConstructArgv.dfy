/** construct_command_argv_internal as a whole: fast path, slow path and the call to itself. */
module ConstructArgv {

  import opened CommandLine
  import opened SlowPath
  import opened Wrappers

  const DEFAULT_SHELL := "/bin/sh"

  datatype Outcome = NoCommand(rest: Option<nat>) | Argv(args: seq<string>, rest: Option<nat>)

  /** The flags when none are given; strict is POSIX mode in a recipe whose errors count. */
  function DefaultFlags(strict: bool): (flags: string)
    ensures StandardFlags(flags)
  {
    if strict then "-ec" else "-c"
  }

  predicate StandardFlags(flags: string) {
    flags == "-c" || flags == "-ec"
  }

  predicate StandardIfs(ifs: Option<string>) {
    ifs.Some? ==> forall i :: 0 <= i < |ifs.value| ==> ifs.value[i] in {' ', '\t', '\n'}
  }

  function OrElse(o: Option<string>, default: string): string {
    if o.None? then default else o.value
  }

  function Shift(rest: Option<nat>, offset: nat): Option<nat> {
    if rest.None? then None else Some(rest.value + offset)
  }

  function Stripped(line: string): string {
    line[SkipBlanks(line, 0)..]
  }

  function FromTokens(tokens: Tokens, start: nat): Outcome
    requires tokens.Fast?
  {
    if tokens.args == [] then NoCommand(Shift(tokens.rest, start)) else Argv(tokens.args, Shift(tokens.rest, start))
  }

  /** How often the function may still call itself. */
  function Level(line: string, restp: bool, shell: Option<string>, flags: Option<string>, ifs: Option<string>): nat {
    if shell.Some? || flags.Some? || ifs.Some? then 2
    else if Scan(Stripped(line), restp, 0, START) == Slow then 1
    else 0
  }

  /** The whole function. That it is well-founded is part of what is proved: it never calls itself more than twice. */
  function Construct(strict: bool, line: string, restp: bool, shell: Option<string>, flags: Option<string>,
                     ifs: Option<string>): Outcome
    decreases Level(line, restp, shell, flags, ifs), 1
  {
    var start, l := SkipBlanks(line, 0), Stripped(line);
    var sh, fl := OrElse(shell, DEFAULT_SHELL), OrElse(flags, DefaultFlags(strict));
    if l == "" then NoCommand(None)
    else if sh == DEFAULT_SHELL && StandardIfs(ifs) && StandardFlags(fl) && Scan(l, restp, 0, START).Fast? then
      FromTokens(Scan(l, restp, 0, START), start)
    else Slowly(strict, l, start, restp, sh, fl)
  }

  /** "$(SHELL) $(.SHELLFLAGS) LINE" with LINE and SHELL escaped. */
  function NewLine(shell: string, flags: string, line: string, restp: bool): string {
    EscapeShell(shell, 0) + " " + flags + " " + EscapeLine(line, restp, 0).text
  }

  function WithRest(outcome: Outcome, rest: Option<nat>): Outcome {
    outcome.(rest := rest)
  }

  function Slowly(strict: bool, line: string, start: nat, restp: bool, shell: string, flags: string): Outcome
    decreases if shell == DEFAULT_SHELL && flags == DefaultFlags(strict) then 1 else 2, 0
  {
    var rest := Shift(EscapeLine(line, restp, 0).rest, start);
    var newLine := NewLine(shell, flags, line, restp);
    // the source tests for an empty line by comparing with the length of the unescaped head
    if |newLine| == |shell| + |flags| + 2 then NoCommand(rest)
    else
      DefaultReadsBack(strict, line, restp);
      WithRest(Construct(strict, newLine, false, None, None, None), rest)
  }

  // ---- what the slow path hands to the shell ----

  /** The words that $(SHELL) and $(.SHELLFLAGS) stand for. */
  function HeadFields(shell: string, flags: string): seq<string> {
    Fields(shell + " " + flags + " ", 0, "")
  }

  /** The shell starts with a word, and there is no single quote and no backslash. */
  predicate Escapable(shell: string, flags: string) {
    shell != "" && !IsBlank(shell[0]) && Plain(shell) && Plain(flags)
  }

  /** The first word of the shell. */
  function FirstWord(shell: string, flags: string): string
    requires Escapable(shell, flags)
  {
    HasWord(shell, flags);
    HeadFields(shell, flags)[0]
  }

  lemma HasWord(shell: string, flags: string)
    requires shell != "" && !IsBlank(shell[0])
    ensures HeadFields(shell, flags) != []
  {
    FirstField(shell + " " + flags + " ", 0, "");
  }

  lemma {:induction false} FirstField(s: string, i: nat, cur: string)
    requires i <= |s| && (cur != "" || (i < |s| && !IsBlank(s[i])))
    ensures Fields(s, i, cur) != []
    decreases |s| - i
  {
    if cur != "" { FieldExtends(s, i, cur); } else { FirstField(s, i + 1, cur + [s[i]]); }
  }

  /**
   * A shell and flags that survive the second reading: nothing special in the (unescaped) flags,
   * and a first word that is a command name.
   */
  predicate Readable(shell: string, flags: string) {
    Escapable(shell, flags) && NothingToEscape(flags) && CommandName(FirstWord(shell, flags))
  }

  predicate NothingToEscape(shell: string) {
    forall c :: c in shell ==> c !in SH_CHARS
  }

  lemma {:induction false} EscapeAppend(a: string, b: string, i: nat)
    requires i <= |a|
    ensures EscapeShell(a + b, i) == EscapeShell(a, i) + EscapeShell(b, 0)
    decreases |a| - i
  {
    if i == |a| {
      EscapeShift(a, b, 0);
      assert "" + EscapeShell(b, 0) == EscapeShell(b, 0);
    } else {
      EscapeAppend(a, b, i + 1);
      var p := if a[i] in SH_CHARS then ['\\', a[i]] else [a[i]];
      Associate(p, EscapeShell(a, i + 1), EscapeShell(b, 0));
    }
  }

  lemma {:induction false} EscapeShift(a: string, b: string, j: nat)
    requires j <= |b|
    ensures EscapeShell(a + b, |a| + j) == EscapeShell(b, j)
    decreases |b| - j
  {
    if j < |b| { EscapeShift(a, b, j + 1); }
  }

  lemma {:induction false} NothingEscaped(s: string, i: nat)
    requires i <= |s| && NothingToEscape(s)
    ensures EscapeShell(s, i) == s[i..]
    decreases |s| - i
  {
    if i < |s| {
      assert s[i] in s;
      NothingEscaped(s, i + 1);
      assert s[i..] == [s[i]] + s[i + 1..];
    }
  }

  /** How many characters of the shell get a backslash. */
  function Specials(s: string, i: nat): nat
    requires i <= |s|
    decreases |s| - i
  {
    if i == |s| then 0 else (if s[i] in SH_CHARS then 1 else 0) + Specials(s, i + 1)
  }

  lemma {:induction false} EscapeLength(s: string, i: nat)
    requires i <= |s|
    ensures |EscapeShell(s, i)| == |s| - i + Specials(s, i)
    decreases |s| - i
  {
    if i < |s| { EscapeLength(s, i + 1); }
  }

  lemma {:induction false} NoSpecials(s: string, i: nat)
    requires i <= |s|
    ensures Specials(s, i) == 0 <==> NothingToEscape(s[i..])
    decreases |s| - i
  {
    if i < |s| {
      NoSpecials(s, i + 1);
      assert s[i..] == [s[i]] + s[i + 1..];
    }
  }

  /** The new line is the escaped head followed by the escaped script. */
  lemma NewLineIsHead(shell: string, flags: string, line: string, restp: bool)
    requires NothingToEscape(flags)
    ensures NewLine(shell, flags, line, restp)
         == EscapeShell(shell + " " + flags + " ", 0) + EscapeLine(line, restp, 0).text
  {
    var e, t, sep := EscapeShell(shell, 0), EscapeLine(line, restp, 0).text, " " + flags + " ";
    assert shell + " " + flags + " " == shell + sep;
    EscapeAppend(shell, sep, 0);
    NothingEscaped(sep, 0);
    assert e + " " + flags + " " == e + sep;
  }

  /** The tokenizer starts out in the head of the new line. */
  lemma StartsInHead(shell: string, flags: string, line: string, restp: bool)
    requires Readable(shell, flags)
    ensures InHead(NewLine(shell, flags, line, restp), 0, shell + " " + flags + " ", 0,
      EscapeLine(line, restp, 0).text, START, HeadFields(shell, flags))
  {
    var s := NewLine(shell, flags, line, restp);
    HasWord(shell, flags);
    NewLineIsHead(shell, flags, line, restp);
    EscapeStartsUnblank(line, restp, 0);
    assert s[0..] == s && [] + HeadFields(shell, flags) == HeadFields(shell, flags);
  }

  /** After the head it reads the script back. */
  lemma ScriptReadsBack(s: string, n: nat, line: string, restp: bool, fields: seq<string>, script: string)
    requires n <= |s| && s[n..] == EscapeLine(line, restp, 0).text && script == Script(line, restp, 0)
    ensures Scan(s, false, n, HeadDone(fields)) == Finish(HeadDone(fields).(cur := script), None)
  {
    assert "" + script == script;
    ScanEscaped(s, n, line, restp, 0, HeadDone(fields), script);
  }

  lemma HeadAndScript(s: string, head: string, line: string, restp: bool, st: State, fields: seq<string>, tail: string,
        script: string)
    requires InHead(s, 0, head, 0, tail, st, fields) && tail == EscapeLine(line, restp, 0).text
    requires script == Script(line, restp, 0)
    ensures Scan(s, false, 0, st) == Finish(HeadDone(fields).(cur := script), None)
  {
    var n := |s| - |tail|;
    assert s[n..] == tail by { assert s == s[0..]; }
    ScanHead(s, 0, head, 0, tail, st, fields);
    ScriptReadsBack(s, n, line, restp, fields, script);
  }

  /** The tokenizer never sends the new line back to the slow path. */
  lemma ReadsBack(shell: string, flags: string, line: string, restp: bool)
    requires Readable(shell, flags)
    ensures Scan(NewLine(shell, flags, line, restp), false, 0, START)
         == Finish(HeadDone(HeadFields(shell, flags)).(cur := Script(line, restp, 0)), None)
  {
    StartsInHead(shell, flags, line, restp);
    HeadAndScript(NewLine(shell, flags, line, restp), shell + " " + flags + " ", line, restp, START,
                  HeadFields(shell, flags), EscapeLine(line, restp, 0).text, Script(line, restp, 0));
  }

  /** So a line rebuilt for the default shell is the last one. */
  lemma DefaultReadsBack(strict: bool, line: string, restp: bool)
    ensures Scan(Stripped(NewLine(DEFAULT_SHELL, DefaultFlags(strict), line, restp)), false, 0, START) != Slow
  {
    var flags := DefaultFlags(strict);
    var s := NewLine(DEFAULT_SHELL, flags, line, restp);
    DefaultIsSimple();
    SimpleHead(DEFAULT_SHELL, flags);
    ReadsBack(DEFAULT_SHELL, flags, line, restp);
    NewLineStart(DEFAULT_SHELL, flags, line, restp);
    assert SkipBlanks(s, 0) == 0 && s[0..] == s;
  }

  /** "/bin/sh" is a word, and no builtin. */
  lemma DefaultIsSimple()
    ensures Plain(DEFAULT_SHELL) && CommandName(DEFAULT_SHELL) && Unblank(DEFAULT_SHELL)
    ensures NothingToEscape(DEFAULT_SHELL)
  {
    assert CommandName(DEFAULT_SHELL) by {
      NoBuiltinHasSlash();
      NotListed(DEFAULT_SHELL, |SH_CMDS|);
    }
  }

  lemma NoBuiltinHasSlash()
    ensures forall k :: 0 <= k < |SH_CMDS| ==> SH_CMDS[k] != DEFAULT_SHELL
  {
    assert forall k :: 0 <= k < |SH_CMDS| ==> SH_CMDS[k][0] != '/';
  }

  lemma {:induction false} RestIsCut(line: string, restp: bool, i: nat)
    requires i <= |line| && Between(line, i)
    ensures EscapeLine(line, restp, i).rest == Cut(line, restp, i)
    decreases |line| - i
  {
    if i < |line| && !(restp && line[i] == '\n') {
      if BackslashNewline(line, i) {
        RestIsCut(line, restp, i + 2);
        assert restp ==> Cut(line, restp, i + 1) == Cut(line, restp, i + 2);
      } else {
        RestIsCut(line, restp, i + 1);
      }
    }
  }

  /** With a newline to look for, the script is the line up to it; without bare newlines it is the line. */
  lemma {:induction false} ScriptIsPrefix(line: string, restp: bool, i: nat)
    requires i <= |line|
    ensures Cut(line, restp, i).Some? ==>
      i <= Cut(line, restp, i).value < |line| && Bare(line, Cut(line, restp, i).value)
    ensures restp ==>
      Script(line, restp, i) == line[i..if Cut(line, restp, i).None? then |line| else Cut(line, restp, i).value]
    ensures (forall k :: i <= k < |line| ==> !Bare(line, k)) ==> Script(line, restp, i) == line[i..]
    decreases |line| - i
  {
    if i < |line| {
      ScriptIsPrefix(line, restp, i + 1);
      assert line[i..] == [line[i]] + line[i + 1..];
    }
  }

  /** Does the source's test for an empty line fire? Only if nothing of the shell was escaped either. */
  ghost predicate SeenAsEmpty(line: string, restp: bool, shell: string) {
    EscapeLine(line, restp, 0).text == "" && NothingToEscape(shell)
  }

  lemma SeenAsEmptyTest(line: string, restp: bool, shell: string, flags: string)
    ensures |NewLine(shell, flags, line, restp)| == |shell| + |flags| + 2 <==> SeenAsEmpty(line, restp, shell)
  {
    EscapeLength(shell, 0);
    NoSpecials(shell, 0);
    assert shell[0..] == shell;
  }

  /** A nested call reads its line with the tokenizer at once. */
  lemma InnerCall(strict: bool, newLine: string)
    requires newLine != "" && !IsBlank(newLine[0])
    ensures Construct(strict, newLine, false, None, None, None) ==
      match Scan(newLine, false, 0, START) {
        case Fast(args, rest) => FromTokens(Fast(args, rest), 0)
        case Slow => Slowly(strict, newLine, 0, false, DEFAULT_SHELL, DefaultFlags(strict))
      }
  {
    assert SkipBlanks(newLine, 0) == 0;
    assert newLine[0..] == newLine;
  }

  lemma NewLineStart(shell: string, flags: string, line: string, restp: bool)
    requires shell != "" && !IsBlank(shell[0])
    ensures NewLine(shell, flags, line, restp) != "" && !IsBlank(NewLine(shell, flags, line, restp)[0])
  {
    EscapeShellStart(shell, 0);
  }

  /**
   * The slow path round trip: one nested call is enough, it never goes slow again, and its
   * result is the words of the shell and its flags followed by the script, which is cut at
   * the first newline that no backslash precedes. An empty script is not an argument.
   */
  lemma SlowRoundTrip(strict: bool, line: string, start: nat, restp: bool, shell: string, flags: string)
    requires Readable(shell, flags)
    ensures var rest, script := Shift(Cut(line, restp, 0), start), Script(line, restp, 0);
      Slowly(strict, line, start, restp, shell, flags) ==
        if SeenAsEmpty(line, restp, shell) then NoCommand(rest)
        else Argv(HeadFields(shell, flags) + (if script == "" then [] else [script]), rest)
  {
    RestIsCut(line, restp, 0);
    SeenAsEmptyTest(line, restp, shell, flags);
    HasWord(shell, flags);
    NewLineStart(shell, flags, line, restp);
    InnerCall(strict, NewLine(shell, flags, line, restp));
    ReadsBack(shell, flags, line, restp);
  }

  lemma {:induction false} OneField(s: string, i: nat, n: nat, cur: string)
    requires i <= n < |s| && IsBlank(s[n]) && forall k :: i <= k < n ==> !IsBlank(s[k])
    ensures Fields(s, i, cur) == (if cur + s[i..n] == "" then [] else [cur + s[i..n]]) + Fields(s, n + 1, "")
    decreases n - i
  {
    if i < n {
      OneField(s, i + 1, n, cur + [s[i]]);
      assert cur + [s[i]] + s[i + 1..n] == cur + s[i..n];
    } else {
      assert cur + s[i..n] == cur;
    }
  }

  /** The usual case: a shell of one word, standard flags, a script that is not empty. */
  lemma SimpleShell(strict: bool, line: string, start: nat, restp: bool, shell: string, flags: string)
    requires shell != "" && Plain(shell) && CommandName(shell) && Unblank(shell)
    requires StandardFlags(flags)
    requires Script(line, restp, 0) != ""
    ensures Slowly(strict, line, start, restp, shell, flags)
         == Argv([shell, flags, Script(line, restp, 0)], Shift(Cut(line, restp, 0), start))
  {
    SimpleHead(shell, flags);
    SlowRoundTrip(strict, line, start, restp, shell, flags);
    ScriptEscapes(line, restp, 0);
  }

  lemma SimpleHead(shell: string, flags: string)
    requires shell != "" && Plain(shell) && CommandName(shell) && Unblank(shell)
    requires StandardFlags(flags)
    ensures HeadFields(shell, flags) == [shell, flags] && Readable(shell, flags)
  {
    FlagsPlain(flags);
    TwoFields(shell, flags);
  }

  lemma FlagsPlain(flags: string)
    requires StandardFlags(flags)
    ensures flags != "" && Plain(flags) && Unblank(flags) && NothingToEscape(flags)
  {}

  ghost predicate Unblank(s: string) {
    forall i :: 0 <= i < |s| ==> !IsBlank(s[i])
  }

  lemma TwoFields(a: string, b: string)
    requires a != "" && Unblank(a) && b != "" && Unblank(b)
    ensures Fields(a + " " + b + " ", 0, "") == [a, b]
  {
    var head, n := a + " " + b + " ", |a|;
    assert head[0..n] == a && head[n + 1..|head| - 1] == b;
    OneField(head, 0, n, "");
    OneField(head, n + 1, |head| - 1, "");
    assert "" + a == a && "" + b == b;
  }

  lemma {:induction false} ScriptEscapes(line: string, restp: bool, i: nat)
    requires i <= |line| && Between(line, i)
    ensures EscapeLine(line, restp, i).text == "" ==> Script(line, restp, i) == ""
    decreases |line| - i
  {}

  // ---- how deep the nesting goes ----

  /** A shell whose first word is an assignment or a builtin sends the new line back to the slow path. */
  lemma {:induction false} ScanBadHead(s: string, n: nat, head: string, i: nat, tail: string, st: State)
    requires i <= |head| && Plain(head) && head != "" && IsBlank(head[|head| - 1])
    requires n <= |s| && s[n..] == EscapeShell(head, i) + tail
    requires st.quote == '\0' && st.args == [] && !st.seenNonequals && !st.wordHasEquals && '=' !in st.cur
    requires st.cur == "" ==> i < |head| && !IsBlank(head[i])
    requires i < |head| && Fields(head, i, st.cur) != [] && !CommandName(Fields(head, i, st.cur)[0])
    ensures Scan(s, false, n, st) == Slow
    decreases |head| - i
  {
    CharInHead(s, n, head, i, tail);
    if !IsBlank(head[i]) && head[i] != '=' {
      var st' := st.(cur := st.cur + [head[i]]);
      assert Step(s, false, n, st) == Go(n + (if head[i] in SH_CHARS then 2 else 1), st');
      ScanBadHead(s, n + (if head[i] in SH_CHARS then 2 else 1), head, i + 1, tail, st');
    }
  }

  lemma {:induction false} FirstSpecial(flags: string, i: nat) returns (j: nat)
    requires i <= |flags| && NothingToEscape(flags[..i]) && !NothingToEscape(flags)
    ensures j < |flags| && NothingToEscape(flags[..j]) && flags[j] in SH_CHARS
    decreases |flags| - i
  {
    assert flags[..|flags|] == flags;
    if flags[i] in SH_CHARS {
      j := i;
    } else {
      assert flags[..i + 1] == flags[..i] + [flags[i]];
      j := FirstSpecial(flags, i + 1);
    }
  }

  /** The flags are not escaped: a character special to a shell sends the new line back to the slow path. */
  lemma SpecialFlagsAreSlow(shell: string, flags: string, line: string, restp: bool)
    requires Escapable(shell, flags) && !NothingToEscape(flags)
    ensures Scan(NewLine(shell, flags, line, restp), false, 0, START) == Slow
  {
    var s := NewLine(shell, flags, line, restp);
    var j := FirstSpecial(flags, 0);
    var sep, text := " " + flags[..j], EscapeLine(line, restp, 0).text;
    var tail := flags[j..] + (" " + text);
    assert flags == flags[..j] + flags[j..];
    Regroup(EscapeShell(shell, 0), flags[..j], flags[j..], text);
    EscapeAppend(shell, sep, 0);
    NothingEscaped(sep, 0);
    SplitSlow(s, shell + sep, tail);
  }

  lemma Regroup(e: string, a: string, b: string, text: string)
    ensures e + " " + (a + b) + " " + text == (e + (" " + a)) + (b + (" " + text))
  {
  }

  lemma SplitSlow(s: string, head: string, tail: string)
    requires Plain(head) && s == EscapeShell(head, 0) + tail && tail != "" && tail[0] in SH_CHARS
    ensures Scan(s, false, 0, START) == Slow
  {
    assert s[0..] == s;
    ScanToSpecial(s, 0, head, 0, tail, START);
  }

  lemma BadHeadIsSlow(shell: string, flags: string, line: string, restp: bool)
    requires Escapable(shell, flags) && !Readable(shell, flags)
    ensures Scan(NewLine(shell, flags, line, restp), false, 0, START) == Slow
  {
    if NothingToEscape(flags) {
      var head, s := shell + " " + flags + " ", NewLine(shell, flags, line, restp);
      NewLineIsHead(shell, flags, line, restp);
      assert s[0..] == s;
      HasWord(shell, flags);
      ScanBadHead(s, 0, head, 0, EscapeLine(line, restp, 0).text, START);
    } else {
      SpecialFlagsAreSlow(shell, flags, line, restp);
    }
  }

  /**
   * One nested call is enough if and only if the first word of the shell is neither an assignment
   * nor a builtin, and the flags have no character that is special to a shell.
   */
  lemma OneCallIff(shell: string, flags: string, line: string, restp: bool)
    requires Escapable(shell, flags)
    ensures Scan(NewLine(shell, flags, line, restp), false, 0, START) != Slow <==>
      CommandName(FirstWord(shell, flags)) && NothingToEscape(flags)
  {
    HasWord(shell, flags);
    if Readable(shell, flags) {
      ReadsBack(shell, flags, line, restp);
    } else {
      BadHeadIsSlow(shell, flags, line, restp);
    }
  }

  /** The words of an argv, with an empty last one left out. */
  function Words(args: seq<string>, script: string): seq<string> {
    if script == "" then args else args + [script]
  }

  /** Escaping leaves nothing only of an empty line, when no newline is looked for. */
  lemma SomethingEscaped(line: string)
    requires line != ""
    ensures EscapeLine(line, false, 0).text != ""
  {
  }

  /** A nested call on a line that the tokenizer refuses hands the whole of it to the default shell. */
  lemma DefaultShellRuns(strict: bool, line: string)
    requires line != ""
    ensures Slowly(strict, line, 0, false, DEFAULT_SHELL, DefaultFlags(strict)) ==
      Argv(Words([DEFAULT_SHELL, DefaultFlags(strict)], Script(line, false, 0)), Shift(Cut(line, false, 0), 0))
  {
    DefaultIsSimple();
    SimpleHead(DEFAULT_SHELL, DefaultFlags(strict));
    SlowRoundTrip(strict, line, 0, false, DEFAULT_SHELL, DefaultFlags(strict));
    SomethingEscaped(line);
  }

  /**
   * What the slow path comes to, for every shell and all flags: the rebuilt line is read by the
   * tokenizer, or, if that refuses it, handed to the default shell. So there are at most two
   * nested calls.
   */
  lemma TwoCallsAtMost(strict: bool, line: string, start: nat, restp: bool, shell: string, flags: string)
    ensures var rest, l := Shift(Cut(line, restp, 0), start), Stripped(NewLine(shell, flags, line, restp));
      Slowly(strict, line, start, restp, shell, flags) ==
        if SeenAsEmpty(line, restp, shell) || l == "" then NoCommand(rest)
        else
          match Scan(l, false, 0, START)
          case Fast(args, _) => if args == [] then NoCommand(rest) else Argv(args, rest)
          case Slow => Argv(Words([DEFAULT_SHELL, DefaultFlags(strict)], Script(l, false, 0)), rest)
  {
    RestIsCut(line, restp, 0);
    SeenAsEmptyTest(line, restp, shell, flags);
    var l := Stripped(NewLine(shell, flags, line, restp));
    if l != "" {
      SlowlyRest(strict, l, SkipBlanks(NewLine(shell, flags, line, restp), 0));
      DefaultShellRuns(strict, l);
    }
  }

  /** Where the line starts only matters to the rest. */
  lemma SlowlyRest(strict: bool, line: string, start: nat)
    ensures WithRest(Slowly(strict, line, start, false, DEFAULT_SHELL, DefaultFlags(strict)), None)
         == WithRest(Slowly(strict, line, 0, false, DEFAULT_SHELL, DefaultFlags(strict)), None)
  {
  }

  /** Otherwise the default shell is left to run the rebuilt line. */
  lemma SecondCall(strict: bool, line: string, start: nat, restp: bool, shell: string, flags: string)
    requires Escapable(shell, flags) && !Readable(shell, flags) && !SeenAsEmpty(line, restp, shell)
    ensures var newLine := NewLine(shell, flags, line, restp);
      Slowly(strict, line, start, restp, shell, flags) ==
        Argv(Words([DEFAULT_SHELL, DefaultFlags(strict)], Script(newLine, false, 0)), Shift(Cut(line, restp, 0), start))
  {
    var s := NewLine(shell, flags, line, restp);
    BadHeadIsSlow(shell, flags, line, restp);
    NewLineStart(shell, flags, line, restp);
    assert SkipBlanks(s, 0) == 0 && s[0..] == s;
    TwoCallsAtMost(strict, line, start, restp, shell, flags);
  }

  /** One such shell is "A=1 sh". */
  lemma AssignmentShell()
    ensures Escapable("A=1 sh", "-c") && !CommandName(FirstWord("A=1 sh", "-c"))
  {
    var head := "A=1 sh" + " " + "-c" + " ";
    OneField(head, 0, 3, "");
    assert "" + head[0..3] == "A=1";
    assert HeadFields("A=1 sh", "-c")[0] == "A=1";
    assert "A=1"[1] == '=';
  }

  /** One such list of flags is "-c;", for any shell. */
  lemma SpecialFlags(shell: string)
    requires Escapable(shell, "")
    ensures Escapable(shell, "-c;") && !Readable(shell, "-c;")
  {
    assert "-c;"[2] == ';' && ';' in "-c;";
  }

  // ---- a shell with nothing to run ----

  /** Up to the newline that ends it the line is empty; if no newline ends it, there is nothing but newlines. */
  predicate Empty(line: string, restp: bool) {
    line == "" || (line[0] == '\n' && (restp || forall i :: 0 <= i < |line| ==> line[i] == '\n'))
  }

  lemma {:induction false} OnlyNewlines(line: string, i: nat)
    requires i <= |line| && (i == 0 || line[i - 1] == '\n')
    ensures Script(line, false, i) == "" <==> forall k :: i <= k < |line| ==> line[k] == '\n'
    decreases |line| - i
  {
    if i < |line| && line[i] == '\n' { OnlyNewlines(line, i + 1); }
  }

  lemma EmptyScript(line: string, restp: bool)
    ensures Script(line, restp, 0) == "" <==> Empty(line, restp)
    ensures EscapeLine(line, restp, 0).text == "" <==> line == "" || (restp && line[0] == '\n')
  {
    if !restp { OnlyNewlines(line, 0); }
  }

  /**
   * A shell is started with nothing to run if and only if the line is empty and the test for that
   * misses it: because the name of the shell needs escaping, or because of newlines that are not
   * looked for.
   */
  lemma EmptyLineRuns(strict: bool, line: string, start: nat, restp: bool, shell: string, flags: string)
    requires Readable(shell, flags)
    ensures var started := Argv(HeadFields(shell, flags), Shift(Cut(line, restp, 0), start));
      Slowly(strict, line, start, restp, shell, flags) == started <==>
      Empty(line, restp) && (!NothingToEscape(shell) || (!restp && line != ""))
  {
    SlowRoundTrip(strict, line, start, restp, shell, flags);
    EmptyScript(line, restp);
  }

  /** One such shell is "~sh". */
  lemma TildeShell(strict: bool)
    ensures Slowly(strict, "\n", 0, true, "~sh", "-c") == Argv(["~sh", "-c"], Some(0))
  {
    assert forall k :: 0 <= k < |SH_CMDS| ==> SH_CMDS[k][0] != '~';
    NotListed("~sh", |SH_CMDS|);
    assert "~sh"[0] == '~';
    SimpleHead("~sh", "-c");
    EmptyLineRuns(strict, "\n", 0, true, "~sh", "-c");
    assert Bare("\n", 0);
  }

  /** Without a newline to look for, a newline does it, for any shell of one word. */
  lemma NewlineRuns(strict: bool, shell: string, flags: string)
    requires shell != "" && Plain(shell) && CommandName(shell) && Unblank(shell) && StandardFlags(flags)
    ensures Slowly(strict, "\n", 0, false, shell, flags) == Argv([shell, flags], None)
  {
    SimpleHead(shell, flags);
    EmptyLineRuns(strict, "\n", 0, false, shell, flags);
  }

  // ---- the whole function, by what it is given ----

  /** Dropping blanks at the start of a line does not change its script, and shifts where it is cut. */
  lemma {:induction false} ScriptAfterBlanks(line: string, restp: bool, b: nat, i: nat)
    requires b + i <= |line| && (b > 0 ==> line[b - 1] != '\\')
    ensures Script(line[b..], restp, i) == Script(line, restp, b + i)
    ensures Shift(Cut(line[b..], restp, i), b) == Cut(line, restp, b + i)
    decreases |line| - b - i
  {
    if b + i < |line| {
      assert line[b..][i] == line[b + i];
      assert Bare(line[b..], i) <==> Bare(line, b + i);
      ScriptAfterBlanks(line, restp, b, i + 1);
    }
  }

  /** An IFS with another character than blank, tab and newline. */
  predicate OddIfs(ifs: Option<string>) {
    ifs.Some? && exists i :: 0 <= i < |ifs.value| && ifs.value[i] != ' ' && ifs.value[i] != '\t' && ifs.value[i] != '\n'
  }

  predicate TakesSlowPath(line: string, restp: bool, shell: string, flags: string, ifs: Option<string>) {
    || shell != "/bin/sh" || OddIfs(ifs) || (flags != "-c" && flags != "-ec")
    || Scan(line[SkipBlanks(line, 0)..], restp, 0, START) == Slow
  }

  /**
   * A line is left to the shell that was given, /bin/sh if none was, with the flags that were given,
   * -ec or -c if none were: if the shell is another one, the flags or IFS are unusual, or the
   * tokenizer refuses the line. The shell gets the line from its first character that is not a
   * blank up to where it is cut.
   */
  lemma SlowWhen(strict: bool, line: string, restp: bool, shell: Option<string>, flags: Option<string>,
        ifs: Option<string>, sh: string, fl: string)
    requires sh == if shell.Some? then shell.value else "/bin/sh"
    requires fl == if flags.Some? then flags.value else if strict then "-ec" else "-c"
    requires Readable(sh, fl) && TakesSlowPath(line, restp, sh, fl, ifs)
    requires Script(line, restp, SkipBlanks(line, 0)) != ""
    ensures var b := SkipBlanks(line, 0);
      Construct(strict, line, restp, shell, flags, ifs) ==
        Argv(HeadFields(sh, fl) + [Script(line, restp, b)], Cut(line, restp, b))
  {
    var b, l := SkipBlanks(line, 0), Stripped(line);
    ScriptAfterBlanks(line, restp, b, 0);
    ScriptEscapes(l, restp, 0);
    SlowRoundTrip(strict, l, b, restp, sh, fl);
  }

  /** In particular a shell of one word, with -c or -ec, is called with the flags and the script. */
  lemma OneWordShell(strict: bool, line: string, restp: bool, shell: string, flags: Option<string>, ifs: Option<string>)
    requires shell != "" && Plain(shell) && CommandName(shell) && Unblank(shell) && shell != "/bin/sh"
    requires flags in {None, Some("-c"), Some("-ec")} && Script(line, restp, SkipBlanks(line, 0)) != ""
    ensures var b, fl := SkipBlanks(line, 0), if flags.Some? then flags.value else if strict then "-ec" else "-c";
      Construct(strict, line, restp, Some(shell), flags, ifs) ==
        Argv([shell, fl, Script(line, restp, b)], Cut(line, restp, b))
  {
    var fl := if flags.Some? then flags.value else if strict then "-ec" else "-c";
    SimpleHead(shell, fl);
    SlowWhen(strict, line, restp, Some(shell), flags, ifs, shell, fl);
    var script := Script(line, restp, SkipBlanks(line, 0));
    assert [shell, fl] + [script] == [shell, fl, script];
  }

  /** And so is /bin/sh, by other flags of one word, by an odd IFS, or for a line that the tokenizer refuses. */
  lemma DefaultShell(strict: bool, line: string, restp: bool, flags: Option<string>, ifs: Option<string>, fl: string)
    requires fl == if flags.Some? then flags.value else if strict then "-ec" else "-c"
    requires fl != "" && Plain(fl) && Unblank(fl) && NothingToEscape(fl)
    requires TakesSlowPath(line, restp, "/bin/sh", fl, ifs) && Script(line, restp, SkipBlanks(line, 0)) != ""
    ensures var b := SkipBlanks(line, 0);
      forall shell | shell in {None, Some("/bin/sh")} ::
        Construct(strict, line, restp, shell, flags, ifs) ==
          Argv(["/bin/sh", fl, Script(line, restp, b)], Cut(line, restp, b))
  {
    DefaultIsSimple();
    TwoFields("/bin/sh", fl);
    assert Readable("/bin/sh", fl);
    SlowWhen(strict, line, restp, None, flags, ifs, "/bin/sh", fl);
    SlowWhen(strict, line, restp, Some("/bin/sh"), flags, ifs, "/bin/sh", fl);
    var script := Script(line, restp, SkipBlanks(line, 0));
    assert ["/bin/sh", fl] + [script] == ["/bin/sh", fl, script];
  }

  /** Otherwise the words of the tokenizer are the argv, and a line without words is no command. */
  lemma FastWhen(strict: bool, line: string, restp: bool, shell: Option<string>, flags: Option<string>,
        ifs: Option<string>)
    requires shell in {None, Some("/bin/sh")} && flags in {None, Some("-c"), Some("-ec")} && !OddIfs(ifs)
    requires Scan(line[SkipBlanks(line, 0)..], restp, 0, START).Fast?
    ensures var b := SkipBlanks(line, 0);
      var tokens := Scan(line[b..], restp, 0, START);
      var rest := if tokens.rest.None? then None else Some(tokens.rest.value + b);
      Construct(strict, line, restp, shell, flags, ifs) ==
        if tokens.args == [] then NoCommand(rest) else Argv(tokens.args, rest)
  {
  }

  /** A line of blanks is no command, whatever the shell. */
  lemma BlankLine(strict: bool, line: string, restp: bool, shell: Option<string>, flags: Option<string>,
        ifs: Option<string>)
    requires forall i :: 0 <= i < |line| ==> line[i] == ' ' || line[i] == '\t'
    ensures Construct(strict, line, restp, shell, flags, ifs) == NoCommand(None)
  {
    assert SkipBlanks(line, 0) == |line|;
  }
}
