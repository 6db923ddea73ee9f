/**
 * Which recipe lines make runs without a shell (the fast path of construct_command_argv_internal,
 * gnumake/src/job.c): those that need none, and, of lines without newline, all of them.
 */
module FastLines {

  import opened CommandLine
  import opened ShellWords
  import opened Wrappers

  // ---- commands that only a shell has ----

  /** The special built-in utilities of section 2.14 of POSIX.1-2017 XCU. */
  const SPECIAL_BUILTINS: seq<string> := [
    "break", ":", "continue", ".", "eval", "exec", "exit", "export", "readonly", "return", "set", "shift", "times",
    "trap", "unset"]

  /** Utilities that work on the shell they are called from. */
  const SHELL_UTILITIES: seq<string> := [
    "alias", "bg", "cd", "command", "fc", "fg", "getopts", "hash", "jobs", "read", "type", "ulimit", "umask",
    "unalias", "wait"]

  /** Reserved words that start a compound command, and three more names. */
  const OTHER_NAMES: seq<string> := ["case", "for", "if", "while", "login", "logout", "test"]

  predicate ShellCommand(name: string) {
    name in SPECIAL_BUILTINS || name in SHELL_UTILITIES || name in OTHER_NAMES
  }

  lemma {:induction false} ListedAt(name: string, k: nat, n: nat)
    requires k < n <= |SH_CMDS| && SH_CMDS[k] == name
    ensures ListedBelow(name, n)
    decreases n
  {
    if k < n - 1 { ListedAt(name, k, n - 1); }
  }

  lemma {:induction false} FindListed(name: string, n: nat) returns (k: nat)
    requires n <= |SH_CMDS| && ListedBelow(name, n)
    ensures k < n && SH_CMDS[k] == name
  {
    if SH_CMDS[n - 1] == name { k := n - 1; } else { k := FindListed(name, n - 1); }
  }

  /** Where the names stand in the list of the source. */
  const SPECIAL_AT: seq<nat> := [4, 1, 8, 0, 9, 10, 11, 12, 23, 24, 25, 26, 28, 29, 34]
  const UTILITIES_AT: seq<nat> := [2, 3, 6, 7, 13, 14, 16, 17, 19, 22, 30, 31, 32, 33, 35]
  const OTHERS_AT: seq<nat> := [5, 15, 18, 36, 20, 21, 27]

  lemma SpecialListed(i: nat)
    requires i < |SPECIAL_BUILTINS|
    ensures Builtin(SPECIAL_BUILTINS[i])
  {
    assert SH_CMDS[SPECIAL_AT[i]] == SPECIAL_BUILTINS[i];
    ListedAt(SPECIAL_BUILTINS[i], SPECIAL_AT[i], |SH_CMDS|);
  }

  lemma UtilityListed(i: nat)
    requires i < |SHELL_UTILITIES|
    ensures Builtin(SHELL_UTILITIES[i])
  {
    assert SH_CMDS[UTILITIES_AT[i]] == SHELL_UTILITIES[i];
    ListedAt(SHELL_UTILITIES[i], UTILITIES_AT[i], |SH_CMDS|);
  }

  lemma OtherListed(i: nat)
    requires i < |OTHER_NAMES|
    ensures Builtin(OTHER_NAMES[i])
  {
    assert SH_CMDS[OTHERS_AT[i]] == OTHER_NAMES[i];
    ListedAt(OTHER_NAMES[i], OTHERS_AT[i], |SH_CMDS|);
  }

  lemma NoOther(k: nat)
    requires k < |SH_CMDS|
    ensures ShellCommand(SH_CMDS[k])
  {
  }

  /** The list of the source is these names, and no other. */
  lemma BuiltinIff(name: string)
    ensures Builtin(name) <==> ShellCommand(name)
  {
    if Builtin(name) {
      var k := FindListed(name, |SH_CMDS|);
      NoOther(k);
    }
    if name in SPECIAL_BUILTINS {
      var i :| 0 <= i < |SPECIAL_BUILTINS| && SPECIAL_BUILTINS[i] == name;
      SpecialListed(i);
    } else if name in SHELL_UTILITIES {
      var i :| 0 <= i < |SHELL_UTILITIES| && SHELL_UTILITIES[i] == name;
      UtilityListed(i);
    } else if name in OTHER_NAMES {
      var i :| 0 <= i < |OTHER_NAMES| && OTHER_NAMES[i] == name;
      OtherListed(i);
    }
  }

  // ---- the lines that are accepted ----

  /** The first word of the line has an equals sign that is not quoted. */
  predicate AssignsFirst(line: string, i: nat, quoted: bool)
    requires i <= |line|
    decreases |line| - i
  {
    i < |line| &&
    var c := line[i];
    if c == '\'' then AssignsFirst(line, i + 1, !quoted)
    else if quoted then AssignsFirst(line, i + 1, true)
    else if c == '\\' then i + 1 < |line| && AssignsFirst(line, i + 2, false)
    else c == '=' || (c != ' ' && c != '\t' && AssignsFirst(line, i + 1, false))
  }

  /** A line of one piece: no newline, and no backslash at the end that quotes nothing. */
  predicate Whole(line: string) {
    '\n' !in line && (line != "" ==> line[|line| - 1] != '\\')
  }

  /** The first word has not been closed yet, or it was neither an assignment nor a builtin. */
  ghost predicate Under(line: string, i: nat, st: State) {
    && i <= |line| && Whole(line)
    && (if st.args == [] then !st.seenNonequals && !st.wordHasEquals else st.seenNonequals && !Builtin(st.args[0]))
  }

  /** The words that the reference finds, with what has been read of them. */
  ghost function WordsFrom(items: seq<Item>, st: State): seq<string> {
    st.args + Words(items, st.cur, Open(st))
  }

  ghost predicate Wanted(items: Option<seq<Item>>, st: State, assigns: bool) {
    && items.Some? && (st.args == [] ==> !assigns)
    && (WordsFrom(items.value, st) != [] ==> !Builtin(WordsFrom(items.value, st)[0]))
  }

  /** A step that adds a character to the current word, or closes a quoted string in it. */
  lemma SameWords(x: Item, rest: Option<seq<Item>>, st: State, st': State, assigns: bool)
    requires st'.args == st.args
    requires (x.Ch? && st'.cur == st.cur + [x.c]) || (x.Mark? && st'.cur == st.cur && Open(st'))
    ensures Wanted(Prepend(x, rest), st, assigns) <==> Wanted(rest, st', assigns)
  {
    if rest.Some? { assert ([x] + rest.value)[1..] == rest.value; }
  }

  lemma {:induction false} FastIff(line: string, i: nat, st: State)
    requires Under(line, i, st) && st.quote == '\0' && (Open(st) || i == |line| || !IsBlank(line[i]))
    ensures Scan(line, true, i, st).Fast? <==> Wanted(Items(line, i), st, AssignsFirst(line, i, false))
    decreases |line| - i, 1
  {
    if i < |line| {
      var c := line[i];
      assert c in line;
      SpecialIff(c);
      if c == '\'' {
        FastIffQuoted(line, i + 1, st.(quote := c));
      } else if IsBlank(c) {
        FastIffBlank(line, i, st);
      } else if c == '\\' {
        assert i + 1 < |line| && line[i + 1] in line;
        var st' := st.(cur := st.cur + [line[i + 1]]);
        FastIff(line, i + 2, st');
        SameWords(Ch(line[i + 1]), Items(line, i + 2), st, st', AssignsFirst(line, i + 2, false));
      } else if !NeedsShell(c) && (c != '=' || st.seenNonequals) {
        var st' := st.(cur := st.cur + [c], wordHasEquals := st.wordHasEquals || c == '=');
        FastIff(line, i + 1, st');
        SameWords(Ch(c), Items(line, i + 1), st, st', AssignsFirst(line, i + 1, false));
      }
    }
  }

  lemma {:induction false} FastIffQuoted(line: string, i: nat, st: State)
    requires Under(line, i, st) && st.quote == '\''
    ensures Scan(line, true, i, st).Fast? <==> Wanted(QuotedItems(line, i), st, AssignsFirst(line, i, true))
    decreases |line| - i, 0
  {
    if i < |line| {
      var c := line[i];
      assert c in line && (i + 1 < |line| ==> line[i + 1] in line);
      if c == '\'' {
        var st' := st.(quote := '\0', lastEmpty := st.lastEmpty || st.cur == "");
        FastIff(line, i + 1, st');
        SameWords(Mark, Items(line, i + 1), st, st', AssignsFirst(line, i + 1, false));
      } else {
        var st' := st.(cur := st.cur + [c]);
        FastIffQuoted(line, i + 1, st');
        SameWords(Ch(c), QuotedItems(line, i + 1), st, st', AssignsFirst(line, i + 1, true));
      }
    }
  }

  lemma {:induction false} FastIffBlank(line: string, i: nat, st: State)
    requires Under(line, i, st) && st.quote == '\0' && Open(st) && i < |line| && IsBlank(line[i])
    ensures Scan(line, true, i, st).Fast? <==> Wanted(Items(line, i), st, AssignsFirst(line, i, false))
    decreases |line| - i, 0
  {
    var j := SkipBlanks(line, i + 1);
    BlankStep(line, i, st);
    if EndWord(st).Some? {
      var next := EndWord(st).value;
      FastIff(line, j, next);
      BlankAccepted(line, i, j, st, next);
    } else if Items(line, i).Some? {
      FirstClosed(Items(line, i).value, st);
    }
  }

  lemma BlankStep(line: string, i: nat, st: State)
    requires i < |line| && IsBlank(line[i]) && st.quote == '\0'
    ensures var j, next := SkipBlanks(line, i + 1), EndWord(st);
      Scan(line, true, i, st) == if next.None? then Slow else Scan(line, true, j, next.value)
  {
  }

  lemma BlankAccepted(line: string, i: nat, j: nat, st: State, next: State)
    requires i < |line| && IsBlank(line[i]) && j == SkipBlanks(line, i + 1) && Open(st) && EndWord(st) == Some(next)
    requires st.args == [] ==> !AssignsFirst(line, i, false)
    ensures Wanted(Items(line, i), st, AssignsFirst(line, i, false)) <==>
      Wanted(Items(line, j), next, AssignsFirst(line, j, false))
  {
    BlanksKeep(line, i + 1);
    if Items(line, i).Some? {
      BlankRun(line, i + 1);
      ClosedWord(Items(line, j).value, j - (i + 1), st, next);
    }
  }

  lemma {:induction false} BlanksKeep(line: string, i: nat)
    requires i <= |line|
    ensures Items(line, i).None? <==> Items(line, SkipBlanks(line, i)).None?
    decreases |line| - i
  {
    if i < |line| && IsBlank(line[i]) { BlanksKeep(line, i + 1); }
  }

  /** The blank and those after it close the word, and add nothing. */
  lemma ClosedWord(rest: seq<Item>, k: nat, st: State, next: State)
    requires Open(st) && next.args == st.args + [st.cur] && next.cur == "" && !next.lastEmpty
    ensures WordsFrom([Sep] + (Seps(k) + rest), st) == WordsFrom(rest, next)
  {
    SepRun(k, rest);
    assert ([Sep] + (Seps(k) + rest))[1..] == Seps(k) + rest;
    assert st.args + ([st.cur] + Words(rest, "", false)) == next.args + Words(rest, "", false);
  }

  lemma FirstClosed(items: seq<Item>, st: State)
    requires Open(st) && items != [] && items[0] == Sep && st.args == []
    ensures WordsFrom(items, st) != [] && WordsFrom(items, st)[0] == st.cur
  {
  }

  /**
   * A line without newline is run without a shell if and only if it has a meaning without one,
   * its first word is no assignment, and that word is no command that only a shell has.
   */
  lemma AcceptedIff(line: string)
    requires Whole(line) && (line != "" ==> !IsBlank(line[0]))
    ensures Scan(line, true, 0, START).Fast? <==>
      && Items(line, 0).Some? && !AssignsFirst(line, 0, false)
      && (Words(Items(line, 0).value, "", false) != [] ==>
            !ShellCommand(Words(Items(line, 0).value, "", false)[0]))
  {
    FastIff(line, 0, START);
    if Items(line, 0).Some? {
      var words := Words(Items(line, 0).value, "", false);
      assert [] + words == words;
      if words != [] { BuiltinIff(words[0]); }
    }
  }

  /** Whatever the line, the command that is run is none that only a shell has. */
  lemma {:induction false} NoShellCommand(line: string, restp: bool, i: nat, st: State)
    requires i <= |line| && Scan(line, restp, i, st).Fast? && (st.args != [] ==> !Builtin(st.args[0]))
    ensures var args := Scan(line, restp, i, st).args; args != [] ==> !ShellCommand(args[0])
    decreases |line| - i
  {
    if i == |line| {
      FinishNoShell(st, None);
    } else {
      StepKeeps(line, restp, i, st);
      match Step(line, restp, i, st)
      case Go(next, st') => NoShellCommand(line, restp, next, st');
      case Stop(_) => FinishNoShell(st, Some(i));
    }
  }

  lemma StepKeeps(line: string, restp: bool, i: nat, st: State)
    requires i < |line| && (st.args != [] ==> !Builtin(st.args[0]))
    ensures match Step(line, restp, i, st)
      case Go(_, st') => st'.args != [] ==> !Builtin(st'.args[0])
      case Stop(tokens) => tokens == Slow || tokens == Finish(st, Some(i))
  {
    if EndWord(st).Some? { assert st.args == [] ==> (st.args + [st.cur])[0] == st.cur; }
  }

  lemma FinishNoShell(st: State, rest: Option<nat>)
    requires Finish(st, rest).Fast? && (st.args != [] ==> !Builtin(st.args[0]))
    ensures var args := Finish(st, rest).args; args != [] ==> !ShellCommand(args[0])
  {
    var args := Finish(st, rest).args;
    if args != [] { BuiltinIff(args[0]); }
  }
}
