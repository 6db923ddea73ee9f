/**
 * The tokenizer of construct_command_argv_internal (gnumake/src/job.c) as it runs: one
 * pass over the line that writes the arguments one after the other into a single buffer.
 */
module ArgBuffer {

  import opened CommandLine
  import opened Wrappers

  /** The arguments as C strings, one after the other. */
  function Flat(args: seq<string>): string {
    if args == [] then "" else Flat(args[..|args| - 1]) + args[|args| - 1] + ['\0']
  }

  /** Where the arguments start, and where the next one will. */
  function Starts(args: seq<string>): (r: seq<nat>)
    ensures |r| == |args| + 1
    ensures r[|args|] == |Flat(args)| && r[0] == 0
  {
    if args == [] then [0] else Starts(args[..|args| - 1]) + [|Flat(args)|]
  }

  /** No argument contains a NUL. */
  predicate NulFree(args: seq<string>) {
    args == [] || (NulFree(args[..|args| - 1]) && '\0' !in args[|args| - 1])
  }

  /** The C string w, at offset start. */
  predicate CString(a: seq<char>, start: int, w: string) {
    0 <= start && start + |w| < |a| && '\0' !in w && a[start..start + |w|] == w && a[start + |w|] == '\0'
  }

  /** The buffer holds argument k at the offset that Starts gives. */
  lemma {:induction false} ArgumentAt(a: seq<char>, args: seq<string>, k: nat)
    requires k < |args| && NulFree(args) && Flat(args) <= a
    ensures CString(a, Starts(args)[k], args[k])
  {
    var w, before := args[|args| - 1], args[..|args| - 1];
    var n := |Flat(before)|;
    assert Flat(before) == Flat(args)[..n] == a[..n];
    if k == |args| - 1 {
      assert a[n..n + |w|] == Flat(args)[n..n + |w|] == w;
      assert a[n + |w|] == Flat(args)[n + |w|];
    } else {
      ArgumentAt(a, before, k);
    }
  }

  lemma FlatAppend(args: seq<string>, w: string)
    ensures Flat(args + [w]) == Flat(args) + w + ['\0']
    ensures Starts(args + [w]) == Starts(args) + [|Flat(args + [w])|]
    ensures NulFree(args + [w]) <==> NulFree(args) && '\0' !in w
  {
    assert (args + [w])[..|args|] == args;
  }

  const NULL := -1

  /** argstr and new_argv: the bytes of the arguments and where each of them starts. */
  class Buffer {
    const argstr: array<char>
    const newArgv: array<int>
    var ap: nat
    var i: nat
    ghost var args: seq<string>
    ghost var cur: string

    ghost predicate Valid()
      reads this, argstr, newArgv
    {
      && i == |args| < newArgv.Length
      && ap <= argstr.Length
      && argstr[..ap] == Flat(args) + cur
      && newArgv[..i + 1] == Starts(args)
      && '\0' !in cur && NulFree(args)
    }

    constructor (n: nat)
      ensures Valid() && fresh(argstr) && fresh(newArgv)
      ensures argstr.Length == newArgv.Length == n + 1 && ap == 0 && args == [] && cur == ""
    {
      argstr := new char[n + 1](_ => '\0');
      newArgv := new int[n + 1](_ => 0);
      ap, i := 0, 0;
      args, cur := [], "";
    }

    /** *ap++ = c */
    method Put(c: char)
      requires Valid() && ap < argstr.Length && c != '\0'
      modifies this`ap, this`cur, argstr
      ensures Valid() && ap == old(ap) + 1
      ensures cur == old(cur) + [c]
    {
      argstr[ap] := c;
      assert argstr[..ap + 1] == argstr[..ap] + [c];
      ap := ap + 1;
      cur := cur + [c];
      assert Flat(args) + cur == Flat(args) + old(cur) + [c];
    }

    /** *ap++ = '\0'; new_argv[++i] = ap */
    method EndArg()
      requires Valid() && ap < argstr.Length && i + 1 < newArgv.Length
      modifies this, argstr, newArgv
      ensures Valid() && ap == old(ap) + 1 && i == old(i) + 1
      ensures args == old(args) + [old(cur)] && cur == ""
    {
      FlatAppend(args, cur);
      argstr[ap] := '\0';
      assert argstr[..ap + 1] == argstr[..ap] + ['\0'];
      ap := ap + 1;
      i := i + 1;
      newArgv[i] := ap;
      args, cur := args + [cur], "";
      assert |Flat(args)| == ap;
      assert argstr[..ap] == Flat(args) + "";
      assert newArgv[..i + 1] == newArgv[..i] + [ap];
    }

    /** Nothing has been written yet, or the last thing written ended an argument. */
    predicate NothingSinceEnd()
      reads this, argstr, newArgv
      requires Valid()
      ensures NothingSinceEnd() <==> cur == ""
    {
      FirstStart();
      LastWritten();
      ap == newArgv[0] || argstr[ap - 1] == '\0'
    }

    lemma FirstStart()
      requires Valid()
      ensures newArgv[0] == 0
    {
      assert newArgv[0] == newArgv[..i + 1][0];
    }

    lemma LastWritten()
      requires Valid()
      ensures ap > 0 ==> (argstr[ap - 1] == '\0' <==> cur == "")
      ensures ap == 0 ==> cur == ""
    {
      if ap > 0 {
        assert argstr[ap - 1] == argstr[..ap][ap - 1];
        if cur == "" {
          assert argstr[..ap] == Flat(args);
        } else {
          assert argstr[..ap][ap - 1] == cur[|cur| - 1];
        }
      }
    }

    /** Nothing of the current argument has been written. */
    predicate AtArgStart()
      reads this, argstr, newArgv
      requires Valid()
      ensures AtArgStart() <==> cur == ""
    {
      assert |argstr[..ap]| == |Flat(args)| + |cur|;
      assert newArgv[i] == newArgv[..i + 1][i];
      ap == newArgv[i]
    }
  }

  /** How a round of the loop ends. */
  datatype Next = Continue | GiveUp | LineEnds

  /** The local flags of the tokenizer. */
  datatype Flags = Flags(instring: char, wordHasEquals: bool, seenNonequals: bool, lastEmpty: bool)

  /** Buffer and flags as the variables of the tokenizer. */
  ghost function St(buf: Buffer, f: Flags): State
    reads buf
  {
    State(buf.args, buf.cur, f.instring, f.wordHasEquals, f.seenNonequals, f.lastEmpty)
  }

  /** The arguments never take more room than the part of the line already read. */
  ghost predicate Fits(line: string, p: nat, f: Flags, buf: Buffer)
    reads buf, buf.argstr, buf.newArgv
  {
    && '\0' !in line
    && buf.Valid()
    && buf.argstr.Length == buf.newArgv.Length == |line| + 1
    && p <= |line| && buf.ap <= p && buf.i <= p
    && (f.instring != '\0' || f.lastEmpty ==> buf.i < p)
  }

  /** while (ISBLANK (p[1])) ++p, with p already past the character before */
  method SkipTheBlanks(line: string, p: nat) returns (q: nat)
    requires p <= |line|
    ensures q == SkipBlanks(line, p)
  {
    q := p;
    while q < |line| && IsBlank(line[q])
      invariant p <= q <= |line|
      invariant SkipBlanks(line, q) == SkipBlanks(line, p)
    {
      q := q + 1;
    }
  }

  lemma InString(a: seq<char>, start: nat, w: string, k: nat)
    requires CString(a, start, w) && k <= |w|
    ensures a[start + k] == '\0' <==> k == |w|
    ensures k < |w| ==> a[start + k] == w[k]
  {
    if k < |w| {
      assert a[start..start + |w|][k] == w[k];
    }
  }

  /** The characters from start up to the next NUL. */
  method ReadString(a: array<char>, start: nat, ghost w: string) returns (r: string)
    requires CString(a[..], start, w)
    ensures r == w
  {
    r := "";
    InString(a[..], start, w, 0);
    while a[start + |r|] != '\0'
      invariant r <= w
      invariant a[start + |r|] == '\0' <==> |r| == |w|
      decreases |w| - |r|
    {
      InString(a[..], start, w, |r|);
      r := r + [a[start + |r|]];
      InString(a[..], start, w, |r|);
    }
  }

  lemma {:induction false} Listed(name: string, j: nat, n: nat)
    requires j < n <= |SH_CMDS| && SH_CMDS[j] == name
    ensures ListedBelow(name, n)
  {
    if j < n - 1 { Listed(name, j, n - 1); }
  }

  /** The search for the first argument among the builtins. */
  method FirstIsBuiltin(a: array<char>, ghost w: string) returns (builtin: bool)
    requires CString(a[..], 0, w)
    ensures builtin <==> Builtin(w)
  {
    var name := ReadString(a, 0, w);
    var j := 0;
    while j < |SH_CMDS|
      invariant 0 <= j <= |SH_CMDS|
      invariant !ListedBelow(name, j)
    {
      if SH_CMDS[j] == name {
        Listed(name, j, |SH_CMDS|);
        return true;
      }
      j := j + 1;
    }
    return false;
  }

  /** End the argument, update the flags, and look for a builtin in the first argument. */
  method CloseWord(buf: Buffer, f: Flags) returns (ok: bool, f': Flags)
    requires buf.Valid() && buf.ap < buf.argstr.Length && buf.i + 1 < buf.newArgv.Length && f.instring == '\0'
    modifies buf, buf.argstr, buf.newArgv
    ensures buf.Valid() && buf.ap == old(buf.ap) + 1 && buf.i == old(buf.i) + 1
    ensures ok <==> EndWord(old(St(buf, f))).Some?
    ensures ok ==> St(buf, f') == EndWord(old(St(buf, f))).value
    ensures f'.instring == '\0' && !f'.lastEmpty
  {
    buf.EndArg();
    var seen := f.seenNonequals || !f.wordHasEquals;
    f' := Flags('\0', false, seen, false);
    if f.wordHasEquals && !seen { return false, f'; }
    ok := true;
    if buf.i == 1 {
      ArgumentAt(buf.argstr[..], buf.args, 0);
      var builtin := FirstIsBuiltin(buf.argstr, buf.args[0]);
      ok := !builtin;
    }
  }

  /** A backslash-newline inside a quoted string: kept between single quotes, dropped between double quotes. */
  method KeepContinuation(line: string, p: nat, ghost f: Flags, buf: Buffer, keep: bool)
    requires Fits(line, p, f, buf) && p + 2 <= |line|
    modifies buf, buf.argstr
    ensures Fits(line, p + 2, f, buf)
    ensures St(buf, f) == if keep then old(St(buf, f)).(cur := old(buf.cur) + "\\\n") else old(St(buf, f))
  {
    if keep {
      buf.Put('\\');
      buf.Put('\n');
    }
  }

  /** An ordinary character. */
  method Copy(line: string, p: nat, ghost f: Flags, buf: Buffer)
    requires Fits(line, p, f, buf) && p < |line|
    modifies buf, buf.argstr
    ensures Fits(line, p + 1, f, buf)
    ensures St(buf, f) == old(St(buf, f)).(cur := old(buf.cur) + [line[p]])
  {
    buf.Put(line[p]);
  }

  /** One round inside a quoted string. */
  method Quoted(line: string, restp: bool, p: nat, f: Flags, buf: Buffer) returns (next: Next, p': nat, f': Flags)
    requires Fits(line, p, f, buf) && p < |line| && f.instring != '\0'
    modifies buf, buf.argstr
    ensures Fits(line, p', f', buf)
    ensures next == Continue ==> StepQuoted(line, restp, p, old(St(buf, f))) == Go(p', St(buf, f'))
    ensures next == GiveUp ==> StepQuoted(line, restp, p, old(St(buf, f))) == Stop(Slow)
    ensures next == LineEnds ==>
      p' == p && StepQuoted(line, restp, p, old(St(buf, f))) == Stop(Finish(St(buf, f'), Some(p)))
  {
    var c := line[p];
    next, p', f' := Continue, p + 1, f;
    if c == f.instring {
      f' := f.(instring := '\0', lastEmpty := f.lastEmpty || buf.NothingSinceEnd());
    } else if BackslashNewline(line, p) {
      p' := p + 2;
      KeepContinuation(line, p, f, buf, f.instring != '"');
    } else if c == '\n' && restp {
      next, p' := LineEnds, p;
    } else if f.instring == '"' && c in {'\\', '$', '`'} {
      next := GiveUp;
    } else {
      Copy(line, p, f, buf);
    }
  }

  /** An unquoted backslash. */
  method Backslash(line: string, restp: bool, p: nat, ghost f: Flags, buf: Buffer) returns (p': nat)
    requires Fits(line, p, f, buf) && p < |line| && f.instring == '\0' && line[p] == '\\'
    modifies buf, buf.argstr
    ensures Fits(line, p', f, buf) && StepOutside(line, restp, p, old(St(buf, f))) == Go(p', St(buf, f))
  {
    if BackslashNewline(line, p) {
      p' := p + 2;
      if buf.AtArgStart() { p' := SkipTheBlanks(line, p'); }
    } else if p + 1 < |line| {
      p' := p + 2;
      buf.Put(line[p + 1]);
    } else {
      p' := p + 1;
    }
  }

  /** A blank: the word ends, and the blanks that follow are skipped. */
  method Blank(line: string, p: nat, f: Flags, buf: Buffer) returns (ok: bool, p': nat, f': Flags)
    requires Fits(line, p, f, buf) && p < |line| && f.instring == '\0'
    modifies buf, buf.argstr, buf.newArgv
    ensures Fits(line, p', f', buf) && p' == SkipBlanks(line, p + 1)
    ensures ok <==> EndWord(old(St(buf, f))).Some?
    ensures ok ==> St(buf, f') == EndWord(old(St(buf, f))).value
  {
    ok, f' := CloseWord(buf, f);
    p' := SkipTheBlanks(line, p + 1);
  }

  /** One round outside of quoted strings. */
  method Outside(line: string, restp: bool, p: nat, f: Flags, buf: Buffer) returns (next: Next, p': nat, f': Flags)
    requires Fits(line, p, f, buf) && p < |line| && f.instring == '\0'
    modifies buf, buf.argstr, buf.newArgv
    ensures Fits(line, p', f', buf)
    ensures next == Continue ==> StepOutside(line, restp, p, old(St(buf, f))) == Go(p', St(buf, f'))
    ensures next == GiveUp ==> StepOutside(line, restp, p, old(St(buf, f))) == Stop(Slow)
    ensures next == LineEnds ==>
      p' == p && StepOutside(line, restp, p, old(St(buf, f))) == Stop(Finish(St(buf, f'), Some(p)))
  {
    var c := line[p];
    next, p', f' := Continue, p + 1, f;
    if c in SH_CHARS {
      next := GiveUp;
    } else if c == '=' {
      if !f.seenNonequals {
        next := GiveUp;
      } else {
        Copy(line, p, f, buf);
        f' := f.(wordHasEquals := true);
      }
    } else if c == '\\' {
      p' := Backslash(line, restp, p, f, buf);
    } else if c == '\'' || c == '"' {
      f' := f.(instring := c);
    } else if c == '\n' && restp {
      next, p' := LineEnds, p;
    } else if IsBlank(c) {
      var ok;
      ok, p', f' := Blank(line, p, f, buf);
      if !ok { next := GiveUp; }
    } else {
      Copy(line, p, f, buf);
    }
  }

  /** One round of the loop. */
  method Round(line: string, restp: bool, p: nat, f: Flags, buf: Buffer) returns (next: Next, p': nat, f': Flags)
    requires Fits(line, p, f, buf) && p < |line|
    modifies buf, buf.argstr, buf.newArgv
    ensures Fits(line, p', f', buf)
    ensures next == Continue ==> Step(line, restp, p, old(St(buf, f))) == Go(p', St(buf, f'))
    ensures next == GiveUp ==> Step(line, restp, p, old(St(buf, f))) == Stop(Slow)
    ensures next == LineEnds ==> p' == p && Step(line, restp, p, old(St(buf, f))) == Stop(Finish(St(buf, f'), Some(p)))
  {
    if f.instring != '\0' {
      next, p', f' := Quoted(line, restp, p, f, buf);
    } else {
      next, p', f' := Outside(line, restp, p, f, buf);
    }
  }

  /** What the caller is handed: a list of C strings, closed by a null pointer. */
  ghost predicate Holds(buf: Buffer, args: seq<string>)
    reads buf.argstr, buf.newArgv
  {
    && |args| < buf.newArgv.Length && buf.newArgv[|args|] == NULL
    && forall k :: 0 <= k < |args| ==> CString(buf.argstr[..], buf.newArgv[k], args[k])
  }

  /** The arguments once the line has ended. */
  ghost function Closed(st: State): seq<string> {
    if st.cur != "" || st.lastEmpty then st.args + [st.cur] else st.args
  }

  /** The argument list as it stands before its null pointer is written. */
  ghost predicate Written(buf: Buffer, args: seq<string>)
    reads buf.argstr, buf.newArgv
  {
    && |args| < buf.newArgv.Length
    && NulFree(args)
    && Flat(args) <= buf.argstr[..]
    && Starts(args)[..|args|] == buf.newArgv[..|args|]
  }

  /** new_argv[i] = 0 */
  method PutNull(buf: Buffer, argc: nat, ghost args: seq<string>)
    requires Written(buf, args) && argc == |args|
    modifies buf.newArgv
    ensures Holds(buf, args)
    ensures args != [] ==> CString(buf.argstr[..], 0, args[0])
  {
    buf.newArgv[argc] := NULL;
    forall k | 0 <= k < |args|
      ensures CString(buf.argstr[..], buf.newArgv[k], args[k]) && Starts(args)[k] == buf.newArgv[k]
    {
      ArgumentAt(buf.argstr[..], args, k);
      assert buf.newArgv[k] == old(buf.newArgv[..argc])[k];
    }
  }

  method LoneBuiltin(a: array<char>, argc: nat, ghost args: seq<string>) returns (lone: bool)
    requires argc == |args| && (args != [] ==> CString(a[..], 0, args[0]))
    ensures lone <==> |args| == 1 && Builtin(args[0])
  {
    lone := false;
    if argc == 1 { lone := FirstIsBuiltin(a, args[0]); }
  }

  /** The bytes up to and including the NUL after the last argument begin with the closed list. */
  lemma ClosedFlat(st: State, a: seq<char>)
    requires Flat(st.args) + st.cur + ['\0'] <= a && NulFree(st.args) && '\0' !in st.cur
    ensures Flat(Closed(st)) <= a && NulFree(Closed(st))
    ensures Starts(Closed(st))[..|st.args| + 1] == Starts(st.args)
    ensures a[|Flat(st.args)|] != '\0' <==> st.cur != ""
  {
    FlatAppend(st.args, st.cur);
    var flat := Flat(st.args) + st.cur + ['\0'];
    assert flat[|Flat(st.args)|] == (st.cur + ['\0'])[0];
    assert Flat(st.args) == flat[..|Flat(st.args)|] == a[..|Flat(st.args)|];
  }

  /** Terminate the last argument. */
  method Terminate(line: string, p: nat, f: Flags, buf: Buffer) returns (argc: nat)
    requires Fits(line, p, f, buf)
    modifies buf.argstr
    ensures argc == |Closed(St(buf, f))| && Written(buf, Closed(St(buf, f)))
  {
    var start := buf.newArgv[buf.i];
    assert start == buf.newArgv[..buf.i + 1][buf.i];
    assert buf.newArgv[..buf.i] == buf.newArgv[..buf.i + 1][..buf.i];
    assert |buf.argstr[..buf.ap]| == |Flat(buf.args)| + |buf.cur|;
    buf.argstr[buf.ap] := '\0';
    assert buf.argstr[..buf.ap + 1] == Flat(buf.args) + buf.cur + ['\0'];
    ClosedFlat(St(buf, f), buf.argstr[..]);
    LongEnough(buf.args);
    argc := buf.i;
    if buf.argstr[start] != '\0' || f.lastEmpty {
      argc := argc + 1;
    }
  }

  lemma {:induction false} LongEnough(args: seq<string>)
    ensures |args| <= |Flat(args)|
  {
    if args != [] { LongEnough(args[..|args| - 1]); }
  }

  lemma FinishCloses(st: State, rest: Option<nat>)
    requires st.quote == '\0'
    ensures Finish(st, rest) == if |Closed(st)| == 1 && Builtin(Closed(st)[0]) then Slow else Fast(Closed(st), rest)
  {
  }

  /** The end of the line: terminate the last argument and the argument list, and look for a lone builtin. */
  method CloseList(line: string, p: nat, f: Flags, buf: Buffer, ghost rest: Option<nat>) returns (slow: bool, argc: nat)
    requires Fits(line, p, f, buf)
    modifies buf.argstr, buf.newArgv
    ensures slow <==> Finish(St(buf, f), rest) == Slow
    ensures !slow ==> Finish(St(buf, f), rest) == Fast(Closed(St(buf, f)), rest)
    ensures !slow ==> argc == |Closed(St(buf, f))| && Holds(buf, Closed(St(buf, f)))
  {
    slow, argc := true, 0;
    if f.instring != '\0' { return; }
    ghost var st := St(buf, f);
    ghost var args := Closed(st);
    FinishCloses(st, rest);
    argc := Terminate(line, p, f, buf);
    PutNull(buf, argc, args);
    slow := LoneBuiltin(buf.argstr, argc, args);
  }

  /**
   * The whole fast path, on buffers of strlen (line) + 1 entries: it asks for the shell
   * exactly when Scan does, and otherwise leaves Scan's arguments in the buffer.
   */
  method FastPath(line: string, restp: bool) returns (slow: bool, argc: nat, rest: Option<nat>, buf: Buffer)
    requires '\0' !in line
    ensures slow <==> Scan(line, restp, 0, START) == Slow
    ensures !slow ==>
      Scan(line, restp, 0, START).Fast? && Scan(line, restp, 0, START).rest == rest
      && argc == |Scan(line, restp, 0, START).args| && Holds(buf, Scan(line, restp, 0, START).args)
  {
    buf := new Buffer(|line|);
    slow, argc, rest := true, 0, None;
    var p: nat, f, next := 0, Flags('\0', false, false, false), Continue;
    while p < |line| && next == Continue
      invariant Fits(line, p, f, buf) && fresh(buf) && fresh(buf.argstr) && fresh(buf.newArgv)
      invariant next != GiveUp && rest == None
      invariant next == Continue ==> Scan(line, restp, p, St(buf, f)) == Scan(line, restp, 0, START)
      invariant next == LineEnds ==> Finish(St(buf, f), Some(p)) == Scan(line, restp, 0, START)
      decreases next == Continue, |line| - p
    {
      next, p, f := Round(line, restp, p, f, buf);
      if next == GiveUp { return; }
    }
    if next == LineEnds { rest := Some(p); }
    slow, argc := CloseList(line, p, f, buf, rest);
  }
}
