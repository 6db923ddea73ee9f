/**
 * The fast path of construct_command_argv_internal (gnumake/src/job.c): one pass over a
 * recipe line that splits it into arguments, or gives up and asks for a shell.
 */
module CommandLine {

  import opened Wrappers

  /** Characters that only a shell may interpret. */
  const SH_CHARS: set<char> := {
    '#', ';', '"', '*', '?', '[', ']', '&', '|', '<', '>', '(', ')', '{', '}', '$', '`', '^', '~', '!'}

  /** Commands that only a shell has. */
  const SH_CMDS: seq<string> := [
    ".", ":", "alias", "bg", "break", "case", "cd", "command", "continue", "eval", "exec", "exit", "export",
    "fc", "fg", "for", "getopts", "hash", "if", "jobs", "login", "logout", "read", "readonly", "return", "set",
    "shift", "test", "times", "trap", "type", "ulimit", "umask", "unalias", "unset", "wait", "while"]

  /** The name is one of the first n entries of the table. */
  predicate ListedBelow(name: string, n: nat)
    requires n <= |SH_CMDS|
  {
    n > 0 && (SH_CMDS[n - 1] == name || ListedBelow(name, n - 1))
  }

  predicate Builtin(name: string) {
    ListedBelow(name, |SH_CMDS|)
  }

  lemma {:induction false} NotListed(name: string, n: nat)
    requires n <= |SH_CMDS| && forall k :: 0 <= k < |SH_CMDS| ==> SH_CMDS[k] != name
    ensures !ListedBelow(name, n)
  {
    if n > 0 { NotListed(name, n - 1); }
  }

  predicate IsBlank(c: char) {
    c == ' ' || c == '\t'
  }

  predicate IsSpace(c: char) {
    IsBlank(c) || c == '\n' || c == '\r' || c == '\U{0B}' || c == '\U{0C}'
  }

  /** First position at or after i that does not hold a blank. */
  function SkipBlanks(line: string, i: nat): (j: nat)
    requires i <= |line|
    ensures i <= j <= |line|
    ensures forall k :: i <= k < j ==> IsBlank(line[k])
    ensures j < |line| ==> !IsBlank(line[j])
    decreases |line| - i
  {
    if i < |line| && IsBlank(line[i]) then SkipBlanks(line, i + 1) else i
  }

  /** The local variables of the tokenizer between two characters; quote 0 is "not in a string". */
  datatype State = State(
    args: seq<string>, cur: string, quote: char, wordHasEquals: bool, seenNonequals: bool, lastEmpty: bool)

  const START := State([], "", '\0', false, false, false)

  /** Slow asks for the shell; rest is where the newline that ended the line was found. */
  datatype Tokens = Slow | Fast(args: seq<string>, rest: Option<nat>)

  predicate BackslashNewline(line: string, i: nat) {
    i + 1 < |line| && line[i] == '\\' && line[i + 1] == '\n'
  }

  function Finish(st: State, rest: Option<nat>): Tokens {
    if st.quote != '\0' then Slow
    else
      var args := if st.cur != "" || st.lastEmpty then st.args + [st.cur] else st.args;
      if |args| == 1 && Builtin(args[0]) then Slow else Fast(args, rest)
  }

  /** Closing the current word at a blank. */
  function EndWord(st: State): Option<State> {
    var seen := st.seenNonequals || !st.wordHasEquals;
    if st.wordHasEquals && !seen then None
    else if st.args == [] && Builtin(st.cur) then None
    else Some(State(st.args + [st.cur], "", '\0', false, seen, false))
  }

  /** One round of the loop: either a result, or the next position and the new variables. */
  datatype Move = Stop(result: Tokens) | Go(next: nat, st: State)

  /** A round that starts outside of a quoted string. */
  function StepOutside(line: string, restp: bool, i: nat, st: State): (m: Move)
    requires i < |line|
    ensures m.Go? ==> i < m.next <= |line|
  {
    var c := line[i];
    if c in SH_CHARS then Stop(Slow)
    else if c == '=' then
      if !st.seenNonequals then Stop(Slow) else Go(i + 1, st.(wordHasEquals := true, cur := st.cur + "="))
    else if c == '\\' then
      if BackslashNewline(line, i) then Go(if st.cur == "" then SkipBlanks(line, i + 2) else i + 2, st)
      else if i + 1 < |line| then Go(i + 2, st.(cur := st.cur + [line[i + 1]]))
      else Go(i + 1, st)
    else if c == '\'' || c == '"' then Go(i + 1, st.(quote := c))
    else if c == '\n' && restp then Stop(Finish(st, Some(i)))
    else if IsBlank(c) then
      if EndWord(st).None? then Stop(Slow) else Go(SkipBlanks(line, i + 1), EndWord(st).value)
    else Go(i + 1, st.(cur := st.cur + [c]))
  }

  /** A round that starts inside of a quoted string. */
  function StepQuoted(line: string, restp: bool, i: nat, st: State): (m: Move)
    requires i < |line|
    ensures m.Go? ==> i < m.next <= |line|
  {
    var c := line[i];
    if c == st.quote then Go(i + 1, st.(quote := '\0', lastEmpty := st.lastEmpty || st.cur == ""))
    else if BackslashNewline(line, i) then
      Go(i + 2, if st.quote == '"' then st else st.(cur := st.cur + "\\\n"))
    else if c == '\n' && restp then Stop(Finish(st, Some(i)))
    else if st.quote == '"' && c in {'\\', '$', '`'} then Stop(Slow)
    else Go(i + 1, st.(cur := st.cur + [c]))
  }

  function Step(line: string, restp: bool, i: nat, st: State): (m: Move)
    requires i < |line|
    ensures m.Go? ==> i < m.next <= |line|
  {
    if st.quote != '\0' then StepQuoted(line, restp, i, st) else StepOutside(line, restp, i, st)
  }

  /** The tokenizer from position i on. */
  function Scan(line: string, restp: bool, i: nat, st: State): Tokens
    requires i <= |line|
    decreases |line| - i
  {
    if i == |line| then Finish(st, None)
    else
      match Step(line, restp, i, st)
      case Stop(result) => result
      case Go(next, st') => Scan(line, restp, next, st')
  }
}
