/**
 * The slow path of construct_command_argv_internal (gnumake/src/job.c): the line is escaped
 * behind "$(SHELL) $(.SHELLFLAGS)" and read again by the same tokenizer.
 */
module SlowPath {

  import opened CommandLine
  import opened Wrappers

  // ---- escaping ----

  /** SHELL from position i on, with the characters special to a shell escaped. */
  function EscapeShell(shell: string, i: nat): string
    requires i <= |shell|
    decreases |shell| - i
  {
    if i == |shell| then ""
    else (if shell[i] in SH_CHARS then ['\\', shell[i]] else [shell[i]]) + EscapeShell(shell, i + 1)
  }

  predicate NeedsEscape(c: char) {
    c == '\\' || c == '\'' || c == '"' || IsSpace(c) || c in SH_CHARS
  }

  datatype Escaped = Escaped(text: string, rest: Option<nat>)

  /** The recipe line from position i on, escaped; rest is the newline it was cut at. */
  function EscapeLine(line: string, restp: bool, i: nat): Escaped
    requires i <= |line|
    decreases |line| - i
  {
    if i == |line| then Escaped("", None)
    else if restp && line[i] == '\n' then Escaped("", Some(i))
    else if BackslashNewline(line, i) then
      var e := EscapeLine(line, restp, i + 2);
      e.(text := "\\\\\n" + e.text)
    else
      var e := EscapeLine(line, restp, i + 1);
      e.(text := (if NeedsEscape(line[i]) then ['\\', line[i]] else [line[i]]) + e.text)
  }

  /** A newline that no backslash precedes. */
  predicate Bare(line: string, i: nat) {
    i < |line| && line[i] == '\n' && !(i > 0 && line[i - 1] == '\\')
  }

  /**
   * The script the shell is to run: cut at the first bare newline if the caller wants to
   * be told where the next line starts, and without its bare newlines otherwise.
   */
  function Script(line: string, restp: bool, i: nat): string
    requires i <= |line|
    decreases |line| - i
  {
    if i == |line| then ""
    else if Bare(line, i) then if restp then "" else Script(line, restp, i + 1)
    else [line[i]] + Script(line, restp, i + 1)
  }

  /** Where the script was cut. */
  function Cut(line: string, restp: bool, i: nat): Option<nat>
    requires i <= |line|
    decreases |line| - i
  {
    if !restp || i == |line| then None
    else if Bare(line, i) then Some(i) else Cut(line, restp, i + 1)
  }

  /** The words of a text without quotes: split at blanks. */
  function Fields(s: string, i: nat, cur: string): seq<string>
    requires i <= |s|
    decreases |s| - i
  {
    var done := if cur == "" then [] else [cur];
    if i == |s| then done
    else if s[i] == ' ' || s[i] == '\t' then done + Fields(s, i + 1, "")
    else Fields(s, i + 1, cur + [s[i]])
  }

  // ---- reading the escaped line back ----

  lemma EscapeStartsUnblank(line: string, restp: bool, i: nat)
    requires i <= |line|
    ensures var t := EscapeLine(line, restp, i).text; t != "" ==> !IsBlank(t[0])
  {}

  /** The position is not inside a backslash-newline. */
  predicate Between(line: string, i: nat) {
    i == 0 || !BackslashNewline(line, i - 1)
  }

  // ---- single steps of the tokenizer ----

  /** What is left of a suffix after its first piece. */
  lemma Suffix(s: string, n: nat, piece: string, rest: string)
    requires n <= |s| && s[n..] == piece + rest
    ensures n + |piece| <= |s| && s[n + |piece|..] == rest
    ensures forall k :: n <= k < n + |piece| ==> s[k] == piece[k - n]
    ensures |s| == n + |piece| + |rest|
    ensures rest != "" ==> s[n + |piece|] == rest[0]
  {
    assert s[n..][|piece|..] == s[n + |piece|..];
    forall k | n <= k < n + |piece| ensures s[k] == piece[k - n] {
      assert s[n..][k - n] == s[k];
    }
  }

  lemma Associate(x: string, y: string, z: string)
    ensures (x + y) + z == x + (y + z)
  {}

  lemma StepPair(s: string, n: nat, st: State)
    requires st.quote == '\0' && n + 2 < |s| && s[n] == '\\' && s[n + 1] == '\\' && s[n + 2] == '\n'
    ensures Scan(s, false, n, st) == Scan(s, false, n + 3, st.(cur := st.cur + "\\" + "\n"))
  {
    var st1 := st.(cur := st.cur + "\\");
    assert Step(s, false, n, st) == Go(n + 2, st1);
    assert Step(s, false, n + 2, st1) == Go(n + 3, st1.(cur := st1.cur + "\n"));
  }

  // ---- reading the script back ----

  /** The state of the tokenizer at the start of the script. */
  function HeadDone(args: seq<string>): State {
    State(args, "", '\0', false, true, false)
  }

  /** The tokenizer has read part of the argument `arg` and finds the rest of it at position n. */
  ghost predicate InScript(s: string, n: nat, line: string, restp: bool, i: nat, st: State, arg: string) {
    && i <= |line| && Between(line, i)
    && st.quote == '\0' && st.seenNonequals && !st.lastEmpty
    && n <= |s| && s[n..] == EscapeLine(line, restp, i).text
    && arg == st.cur + Script(line, restp, i)
  }

  /** The tokenizer turns the escaped line back into the script, as one argument. */
  lemma {:induction false} ScanEscaped(s: string, n: nat, line: string, restp: bool, i: nat, st: State, arg: string)
    requires InScript(s, n, line, restp, i, st, arg)
    ensures Scan(s, false, n, st) == Finish(HeadDone(st.args).(cur := arg), None)
    decreases |line| - i
  {
    if i == |line| || (restp && line[i] == '\n') {
      assert arg == st.cur;
    } else if BackslashNewline(line, i) {
      PairNext(s, n, line, restp, i, st, arg);
      StepPair(s, n, st);
      ScanEscaped(s, n + 3, line, restp, i + 2, st.(cur := st.cur + "\\" + "\n"), arg);
    } else {
      var n', st' := CharNext(s, n, line, restp, i, st, arg);
      ScanEscaped(s, n', line, restp, i + 1, st', arg);
    }
  }

  lemma PairNext(s: string, n: nat, line: string, restp: bool, i: nat, st: State, arg: string)
    requires InScript(s, n, line, restp, i, st, arg) && BackslashNewline(line, i)
    ensures n + 2 < |s| && s[n] == '\\' && s[n + 1] == '\\' && s[n + 2] == '\n'
    ensures InScript(s, n + 3, line, restp, i + 2, st.(cur := st.cur + "\\" + "\n"), arg)
  {
    Suffix(s, n, "\\\\\n", EscapeLine(line, restp, i + 2).text);
    ScriptPair(line, restp, i, st.cur);
  }

  lemma CharNext(s: string, n: nat, line: string, restp: bool, i: nat, st: State, arg: string)
    returns (n': nat, st': State)
    requires InScript(s, n, line, restp, i, st, arg) && i < |line|
    requires !(restp && line[i] == '\n') && !BackslashNewline(line, i)
    ensures n < |s| && Step(s, false, n, st) == Go(n', st') && st'.args == st.args
    ensures InScript(s, n', line, restp, i + 1, st', arg)
  {
    var c := line[i];
    var t := EscapeLine(line, restp, i + 1).text;
    if NeedsEscape(c) {
      n' := n + 2;
      Suffix(s, n, ['\\', c], t);
      if c == '\n' {
        EscapeStartsUnblank(line, restp, i + 1);
        assert SkipBlanks(s, n + 2) == n + 2;
        st' := st;
      } else {
        ScriptChar(line, restp, i, st.cur);
        st' := st.(cur := st.cur + [c]);
      }
    } else {
      n' := n + 1;
      Suffix(s, n, [c], t);
      ScriptChar(line, restp, i, st.cur);
      st' := st.(cur := st.cur + [c], wordHasEquals := st.wordHasEquals || c == '=');
    }
  }

  lemma ScriptPair(line: string, restp: bool, i: nat, cur: string)
    requires BackslashNewline(line, i)
    ensures cur + "\\" + "\n" + Script(line, restp, i + 2) == cur + Script(line, restp, i)
  {
    assert Script(line, restp, i + 1) == "\n" + Script(line, restp, i + 2);
  }

  lemma ScriptChar(line: string, restp: bool, i: nat, cur: string)
    requires i < |line| && !Bare(line, i)
    ensures cur + [line[i]] + Script(line, restp, i + 1) == cur + Script(line, restp, i)
  {}

  // ---- reading the head "$(SHELL) $(.SHELLFLAGS) " back ----

  /** No single quote and no backslash. */
  predicate Plain(s: string) {
    '\'' !in s && '\\' !in s
  }

  /** A run of blanks holds no field. */
  lemma {:induction false} BlankFields(head: string, i: nat, j: nat)
    requires i <= j <= |head| && forall k :: i <= k < j ==> IsBlank(head[k])
    ensures Fields(head, i, "") == Fields(head, j, "")
    decreases j - i
  {
    if i < j { BlankFields(head, i + 1, j); }
  }

  lemma EscapeShellStart(head: string, i: nat)
    requires i < |head| && !IsBlank(head[i])
    ensures EscapeShell(head, i) != "" && !IsBlank(EscapeShell(head, i)[0])
  {}

  /** The first field extends what has been read of it. */
  lemma {:induction false} FieldExtends(s: string, i: nat, cur: string)
    requires i <= |s| && cur != ""
    ensures Fields(s, i, cur) != [] && cur <= Fields(s, i, cur)[0]
    decreases |s| - i
  {
    if i < |s| && !IsBlank(s[i]) { FieldExtends(s, i + 1, cur + [s[i]]); }
  }

  /** A word that starts a command without being an assignment or a builtin. */
  predicate CommandName(w: string) {
    '=' !in w && !Builtin(w)
  }

  /** The tokenizer is in the head, at position i of it and n of the line, on its way to `fields`. */
  ghost predicate InHead(s: string, n: nat, head: string, i: nat, tail: string, st: State, fields: seq<string>) {
    && (tail != "" ==> !IsBlank(tail[0]))
    && i <= |head| && n <= |s| && s[n..] == EscapeShell(head, i) + tail
    && InFields(head, i, st, fields)
  }

  /** What has been read of the head and what is left of it make up the fields. */
  ghost predicate InFields(head: string, i: nat, st: State, fields: seq<string>) {
    && i <= |head| && Plain(head) && head != "" && IsBlank(head[|head| - 1])
    && st.quote == '\0' && !st.lastEmpty
    && (st.cur == "" ==> !st.wordHasEquals && (i == |head| || !IsBlank(head[i])))
    && (i == |head| ==> st.cur == "")
    && (if st.args != [] then st.seenNonequals else !st.wordHasEquals)
    && fields == st.args + Fields(head, i, st.cur)
    && fields != [] && CommandName(fields[0])
  }

  /** The tokenizer splits the head into the fields of $(SHELL) and $(.SHELLFLAGS). */
  lemma {:induction false} ScanHead(s: string, n: nat, head: string, i: nat, tail: string, st: State,
        fields: seq<string>)
    requires InHead(s, n, head, i, tail, st, fields)
    ensures |tail| <= |s| && Scan(s, false, n, st) == Scan(s, false, |s| - |tail|, HeadDone(fields))
    decreases |head| - i
  {
    if i == |head| {
      assert st == HeadDone(fields);
    } else {
      var n', i', st' := HeadStep(s, n, head, i, tail, st, fields);
      ScanHead(s, n', head, i', tail, st', fields);
    }
  }

  /** One round of the tokenizer in the head: a character of a field, or the blanks after it. */
  lemma HeadStep(s: string, n: nat, head: string, i: nat, tail: string, st: State, fields: seq<string>)
    returns (n': nat, i': nat, st': State)
    requires InHead(s, n, head, i, tail, st, fields) && i < |head|
    ensures n < |s| && Step(s, false, n, st) == Go(n', st')
    ensures i < i' && InHead(s, n', head, i', tail, st', fields)
  {
    if IsBlank(head[i]) {
      i' := SkipBlanks(head, i + 1);
      n' := n + (i' - i);
      st' := BlankStep(s, n, head, i, i', tail, st, fields);
    } else {
      i' := i + 1;
      CharInHead(s, n, head, i, tail);
      NextInField(s, n, head, i, tail, st, fields);
      n' := n + if head[i] in SH_CHARS then 2 else 1;
      st' := st.(cur := st.cur + [head[i]], wordHasEquals := st.wordHasEquals || head[i] == '=');
      CharStep(s, n, n', head[i], st);
    }
  }

  /** A character of the head as it stands in the line, quoted if need be. */
  lemma CharStep(s: string, n: nat, n': nat, c: char, st: State)
    requires n' == n + (if c in SH_CHARS then 2 else 1) <= |s| && s[n' - 1] == c && (c in SH_CHARS ==> s[n] == '\\')
    requires c != '\'' && c != '\\' && !IsBlank(c) && (c == '=' ==> st.seenNonequals) && st.quote == '\0'
    ensures Step(s, false, n, st) == Go(n', st.(cur := st.cur + [c], wordHasEquals := st.wordHasEquals || c == '='))
  {
  }

  lemma BlankStep(s: string, n: nat, head: string, i: nat, j: nat, tail: string, st: State, fields: seq<string>)
    returns (st': State)
    requires InHead(s, n, head, i, tail, st, fields) && i < |head| && IsBlank(head[i])
    requires j == SkipBlanks(head, i + 1)
    ensures n < |s| && Step(s, false, n, st) == Go(n + (j - i), st')
    ensures InHead(s, n + (j - i), head, j, tail, st', fields)
  {
    BlanksInHead(s, n, head, i, j, tail);
    AfterBlanks(s, n + (j - i), head, j, tail);
    EndOfField(head, i, j, st, fields);
    assert SkipBlanks(s, n + 1) == n + (j - i);
    st' := EndWord(st).value;
  }

  lemma CharInHead(s: string, n: nat, head: string, i: nat, tail: string)
    requires i < |head| && n <= |s| && s[n..] == EscapeShell(head, i) + tail
    ensures var k := if head[i] in SH_CHARS then 2 else 1;
      && n + k <= |s| && s[n + k - 1] == head[i] && (k == 2 ==> s[n] == '\\')
      && s[n + k..] == EscapeShell(head, i + 1) + tail
  {
    var piece := if head[i] in SH_CHARS then ['\\', head[i]] else [head[i]];
    Associate(piece, EscapeShell(head, i + 1), tail);
    Suffix(s, n, piece, EscapeShell(head, i + 1) + tail);
  }

  /** One more character of a field; the first field has no equals sign. */
  lemma NextInField(s: string, n: nat, head: string, i: nat, tail: string, st: State, fields: seq<string>)
    requires InHead(s, n, head, i, tail, st, fields) && i < |head| && !IsBlank(head[i])
    requires var k := if head[i] in SH_CHARS then 2 else 1;
      n + k <= |s| && s[n + k..] == EscapeShell(head, i + 1) + tail
    ensures head[i] == '=' ==> st.seenNonequals
    ensures head[i] != '\'' && head[i] != '\\'
    ensures InHead(s, n + (if head[i] in SH_CHARS then 2 else 1), head, i + 1, tail,
                   st.(cur := st.cur + [head[i]], wordHasEquals := st.wordHasEquals || head[i] == '='), fields)
  {
    var cur := st.cur + [head[i]];
    FieldExtends(head, i + 1, cur);
    var f := Fields(head, i + 1, cur)[0];
    assert f[|cur| - 1] == head[i];
  }

  /** A run of blanks of the head appears as it is in the line. */
  lemma {:induction false} BlanksInHead(s: string, n: nat, head: string, i: nat, j: nat, tail: string)
    requires i <= j <= |head| && forall k :: i <= k < j ==> IsBlank(head[k])
    requires n <= |s| && s[n..] == EscapeShell(head, i) + tail
    ensures n + (j - i) <= |s| && s[n + (j - i)..] == EscapeShell(head, j) + tail
    ensures forall k :: n <= k < n + (j - i) ==> IsBlank(s[k])
    decreases j - i
  {
    if i < j {
      CharInHead(s, n, head, i, tail);
      BlanksInHead(s, n + 1, head, i + 1, j, tail);
    }
  }

  lemma AfterBlanks(s: string, m: nat, head: string, j: nat, tail: string)
    requires j <= |head| && (j < |head| ==> !IsBlank(head[j])) && (tail != "" ==> !IsBlank(tail[0]))
    requires m <= |s| && s[m..] == EscapeShell(head, j) + tail
    ensures m < |s| ==> !IsBlank(s[m])
  {
    if m < |s| {
      var escaped := EscapeShell(head, j);
      assert s[m] == s[m..][0];
      if j < |head| {
        EscapeShellStart(head, j);
        assert s[m] == escaped[0];
      } else {
        assert escaped == "" && s[m] == tail[0];
      }
    }
  }

  /** The word that is ended is neither an assignment nor a builtin. */
  lemma WordEnds(st: State, rest: seq<string>, fields: seq<string>)
    requires fields == st.args + ([st.cur] + rest) && CommandName(fields[0])
    requires if st.args != [] then st.seenNonequals else !st.wordHasEquals
    ensures EndWord(st) == Some(State(st.args + [st.cur], "", '\0', false, true, false))
  {
    assert st.args == [] ==> fields[0] == st.cur;
  }

  /** A blank ends a field, and the blanks after it hold none. */
  lemma EndOfField(head: string, i: nat, j: nat, st: State, fields: seq<string>)
    requires InFields(head, i, st, fields) && i < |head| && IsBlank(head[i])
    requires j == SkipBlanks(head, i + 1)
    ensures EndWord(st).Some? && InFields(head, j, EndWord(st).value, fields)
  {
    BlankFields(head, i + 1, j);
    var rest := Fields(head, j, "");
    assert Fields(head, i, st.cur) == [st.cur] + rest;
    WordEnds(st, rest, fields);
    assert st.args + ([st.cur] + rest) == (st.args + [st.cur]) + rest;
  }

  /** The tokenizer is in the head, and what follows the head is special to a shell. */
  ghost predicate ToSpecial(s: string, n: nat, head: string, i: nat, tail: string, st: State) {
    && i <= |head| && Plain(head) && st.quote == '\0'
    && n <= |s| && s[n..] == EscapeShell(head, i) + tail && tail != "" && tail[0] in SH_CHARS
  }

  /** It gives up there, if not before. */
  lemma {:induction false} ScanToSpecial(s: string, n: nat, head: string, i: nat, tail: string, st: State)
    requires ToSpecial(s, n, head, i, tail, st)
    ensures Scan(s, false, n, st) == Slow
    decreases |head| - i
  {
    if i == |head| {
      assert s[n] == s[n..][0] == tail[0];
    } else {
      var n', i', st' := SpecialStep(s, n, head, i, tail, st);
      if Step(s, false, n, st).Go? {
        ScanToSpecial(s, n', head, i', tail, st');
      }
    }
  }

  lemma SpecialStep(s: string, n: nat, head: string, i: nat, tail: string, st: State)
    returns (n': nat, i': nat, st': State)
    requires ToSpecial(s, n, head, i, tail, st) && i < |head|
    ensures n < |s| && i < i' && Step(s, false, n, st) in {Stop(Slow), Go(n', st')}
    ensures Step(s, false, n, st) == Go(n', st') ==> ToSpecial(s, n', head, i', tail, st')
  {
    CharInHead(s, n, head, i, tail);
    if IsBlank(head[i]) {
      i' := SkipBlanks(head, i + 1);
      n' := n + (i' - i);
      st' := SpecialBlank(s, n, head, i, i', tail, st);
    } else {
      i' := i + 1;
      n' := n + if head[i] in SH_CHARS then 2 else 1;
      st' := st.(cur := st.cur + [head[i]], wordHasEquals := st.wordHasEquals || head[i] == '=');
      if head[i] != '=' || st.seenNonequals { CharStep(s, n, n', head[i], st); }
    }
  }

  lemma SpecialBlank(s: string, n: nat, head: string, i: nat, j: nat, tail: string, st: State) returns (st': State)
    requires ToSpecial(s, n, head, i, tail, st) && i < |head| && IsBlank(head[i]) && j == SkipBlanks(head, i + 1)
    ensures n < |s| && Step(s, false, n, st) in {Stop(Slow), Go(n + (j - i), st')}
    ensures Step(s, false, n, st).Go? ==> ToSpecial(s, n + (j - i), head, j, tail, st')
  {
    BlanksInHead(s, n, head, i, j, tail);
    AfterBlanks(s, n + (j - i), head, j, tail);
    assert SkipBlanks(s, n + 1) == n + (j - i);
    st' := if EndWord(st).Some? then EndWord(st).value else st;
  }
}
