/**
 * Splitting a recipe into lines, as chop_commands does it (counting backslashes backwards) and
 * as print_commands does it (tracking their parity forwards), both in gnumake/src/commands.c.
 */
module Recipe {

  import opened Wrappers

  const USHRT_MAX := 65535

  /** How many backslashes stand right before position i, not looking before p. */
  function Run(text: string, p: nat, i: nat): nat
    requires p <= i <= |text|
  {
    if i > p && text[i - 1] == '\\' then Run(text, p, i - 1) + 1 else 0
  }

  /** A newline that ends the line that starts at p: the backslashes before it pair up. */
  predicate Ends(text: string, p: nat, i: nat)
    requires p <= i <= |text|
  {
    i < |text| && text[i] == '\n' && Run(text, p, i) % 2 == 0
  }

  /** The k characters before position i are backslashes, and no more of the line from p on are. */
  predicate Backslashes(text: string, p: nat, i: nat, k: nat)
    requires p <= i <= |text|
  {
    k <= i - p && (forall j :: i - k <= j < i ==> text[j] == '\\') && (i - k > p ==> text[i - k - 1] != '\\')
  }

  lemma {:induction false} RunIs(text: string, p: nat, i: nat, k: nat)
    requires p <= i <= |text|
    ensures Run(text, p, i) == k <==> Backslashes(text, p, i, k)
    decreases i
  {
    if i > p && text[i - 1] == '\\' {
      if k > 0 { RunIs(text, p, i - 1, k - 1); }
    } else {
      assert k > 0 && k <= i - p ==> i - k <= i - 1 < i;
    }
  }

  /** A newline ends the line that starts at p if and only if an even number of backslashes stands before it. */
  lemma EndsIff(text: string, p: nat, i: nat)
    requires p <= i < |text|
    ensures Ends(text, p, i) <==> text[i] == '\n' && exists k: nat :: k % 2 == 0 && Backslashes(text, p, i, k)
  {
    RunIs(text, p, i, Run(text, p, i));
    forall k: nat | Backslashes(text, p, i, k) ensures k == Run(text, p, i) {
      RunIs(text, p, i, k);
    }
  }

  /** Where the line that starts at p ends, looking from position i on. */
  function EndFrom(text: string, p: nat, i: nat): (e: nat)
    requires p <= i <= |text|
    ensures i <= e <= |text| && (e < |text| ==> text[e] == '\n')
    decreases |text| - i
  {
    if i == |text| || Ends(text, p, i) then i else EndFrom(text, p, i + 1)
  }

  /** It is the first place that ends the line. */
  lemma {:induction false} EndIsFirst(text: string, p: nat, i: nat, j: nat)
    requires p <= i <= j <= |text|
    ensures j < EndFrom(text, p, i) ==> !Ends(text, p, j)
    ensures j == EndFrom(text, p, i) < |text| ==> Ends(text, p, j)
    decreases j - i
  {
    if i < j && !Ends(text, p, i) { EndIsFirst(text, p, i + 1, j); }
  }

  /** The lines from p on, without the newlines that end them. */
  function Lines(text: string, p: nat): seq<string>
    requires p <= |text|
    decreases |text| - p
  {
    if p == |text| then []
    else
      var e := EndFrom(text, p, p);
      [text[p..e]] + Lines(text, Next(text, p))
  }

  /** Where the next line starts. */
  function Next(text: string, p: nat): (n: nat)
    requires p < |text|
    ensures p < n <= |text|
  {
    var e := EndFrom(text, p, p);
    if e < |text| then e + 1 else e
  }

  lemma LinesStep(text: string, p: nat, done: seq<string>)
    requires p < |text|
    ensures done + Lines(text, p) == (done + [text[p..EndFrom(text, p, p)]]) + Lines(text, Next(text, p))
  {
  }

  lemma {:induction false} SkipTo(text: string, p: nat, i: nat, j: nat)
    requires p <= i <= j <= |text| && forall k :: i <= k < j ==> !Ends(text, p, k)
    ensures EndFrom(text, p, i) == EndFrom(text, p, j)
    decreases j - i
  {
    if i < j { SkipTo(text, p, i + 1, j); }
  }

  /** strchr (end, '\n'), or the end of the text. */
  method FindNewline(text: string, i: nat) returns (j: nat)
    requires i <= |text|
    ensures i <= j <= |text| && (j < |text| ==> text[j] == '\n')
    ensures forall k :: i <= k < j ==> text[k] != '\n'
  {
    j := i;
    while j < |text| && text[j] != '\n'
      invariant i <= j <= |text| && forall k :: i <= k < j ==> text[k] != '\n'
    {
      j := j + 1;
    }
  }

  /** The newline at end is quoted: backslashes are counted backwards, down to the start of the line. */
  method Quoted(text: string, p: nat, end: nat) returns (backslash: bool)
    requires p <= end < |text|
    ensures backslash <==> Run(text, p, end) % 2 == 1
  {
    backslash := false;
    if end > p && text[end - 1] == '\\' {
      backslash := true;
      var b := end - 1;
      while b > p && text[b - 1] == '\\'
        invariant p <= b < end
        invariant Run(text, p, end) == end - b + Run(text, p, b)
        invariant backslash <==> (end - b) % 2 == 1
      {
        backslash := !backslash;
        b := b - 1;
      }
    }
  }

  /** The inner loop of chop_commands. */
  method FindEnd(text: string, p: nat) returns (end: nat)
    requires p <= |text|
    ensures end == EndFrom(text, p, p)
  {
    end := p;
    while true
      invariant p <= end <= |text| && EndFrom(text, p, end) == EndFrom(text, p, p)
      decreases |text| - end
    {
      var start := end;
      end := FindNewline(text, end);
      SkipTo(text, p, start, end);
      if end == |text| { return; }
      var backslash := Quoted(text, p, end);
      if !backslash { return; }
      end := end + 1;
    }
  }

  /** chop_commands; None is the fatal error for a recipe with too many lines. */
  method ChopCommands(text: string) returns (r: Option<seq<string>>)
    ensures r == if |Lines(text, 0)| <= 65535 then Some(Lines(text, 0)) else None
  {
    var p, lines := 0, [];
    while p < |text|
      invariant p <= |text| && |lines| <= USHRT_MAX && lines + Lines(text, p) == Lines(text, 0)
      decreases |text| - p
    {
      var end := FindEnd(text, p);
      LinesStep(text, p, lines);
      if |lines| == USHRT_MAX { return None; }
      lines := lines + [text[p..end]];
      p := end;
      if p < |text| { p := p + 1; }
    }
    assert lines + [] == lines;
    r := Some(lines);
  }

  /** The text print_commands prints for a list of lines. */
  function Printed(prefix: char, lines: seq<string>): string {
    if lines == [] then "" else [prefix] + lines[0] + "\n" + Printed(prefix, lines[1..])
  }

  lemma {:induction false} PrintedAppend(prefix: char, a: seq<string>, b: seq<string>)
    ensures Printed(prefix, a + b) == Printed(prefix, a) + Printed(prefix, b)
  {
    if a == [] {
      assert a + b == b;
    } else {
      assert (a + b)[1..] == a[1..] + b;
      PrintedAppend(prefix, a[1..], b);
    }
  }

  lemma PrintedOne(prefix: char, lines: seq<string>, line: string)
    ensures Printed(prefix, lines + [line]) == Printed(prefix, lines) + ([prefix] + line + "\n")
  {
    PrintedAppend(prefix, lines, [line]);
    assert Printed(prefix, [line]) == [prefix] + line + "\n" + "";
  }

  /** The inner loop of print_commands: the parity of the backslashes just read is kept in bs. */
  method FindPrintedEnd(text: string, s: nat) returns (end: nat)
    requires s <= |text|
    ensures end == EndFrom(text, s, s)
  {
    end := s;
    var bs := false;
    while end < |text| && !(text[end] == '\n' && !bs)
      invariant s <= end <= |text| && EndFrom(text, s, end) == EndFrom(text, s, s)
      invariant bs <==> Run(text, s, end) % 2 == 1
    {
      bs := if text[end] == '\\' then !bs else false;
      end := end + 1;
    }
  }

  /** print_commands prints the lines of chop_commands. */
  method PrintCommands(text: string, prefix: char) returns (out: string)
    ensures out == Printed(prefix, Lines(text, 0))
  {
    var s := 0;
    out := "";
    ghost var lines := [];
    while s < |text|
      invariant s <= |text| && lines + Lines(text, s) == Lines(text, 0) && out == Printed(prefix, lines)
      decreases |text| - s
    {
      var end := FindPrintedEnd(text, s);
      LinesStep(text, s, lines);
      PrintedOne(prefix, lines, text[s..end]);
      lines := lines + [text[s..end]];
      var line := [prefix] + text[s..end] + "\n";
      out := out + line;
      s := if end < |text| then end + 1 else end;
    }
    assert lines + [] == lines;
  }

  /** Lines joined by newlines, with one after the last. */
  function Joined(lines: seq<string>): string {
    if lines == [] then "" else lines[0] + "\n" + Joined(lines[1..])
  }

  /** What is missing at the end of the text: a newline, unless its last character is one that ends a line. */
  function Tail(text: string, p: nat): string
    requires p <= |text|
  {
    if p == |text| || Ends(text, p, |text| - 1) then "" else "\n"
  }

  /** Backslashes are not counted across a newline. */
  lemma {:induction false} RunAfter(text: string, p: nat, e: nat, i: nat)
    requires p <= e < i <= |text| && text[e] == '\n'
    ensures Run(text, p, i) == Run(text, e + 1, i)
    decreases i
  {
    if i > e + 1 { RunAfter(text, p, e, i - 1); }
  }

  /** It is the same after the first line. */
  lemma TailStep(text: string, p: nat, e: nat)
    requires p <= e < |text| && e == EndFrom(text, p, p)
    ensures Tail(text, p) == Tail(text, e + 1)
  {
    EndIsFirst(text, p, p, e);
    if e + 1 < |text| { RunAfter(text, p, e, |text| - 1); }
  }

  /** Joining the lines gives the text back, up to one newline at its end. */
  lemma {:induction false} JoinRestores(text: string, p: nat)
    requires p <= |text|
    ensures Joined(Lines(text, p)) == text[p..] + Tail(text, p)
    decreases |text| - p
  {
    if p < |text| {
      var e, n := EndFrom(text, p, p), Next(text, p);
      JoinRestores(text, n);
      JoinedStep(text[p..e], Lines(text, n));
      if e < |text| {
        TailStep(text, p, e);
        Cut(text, p, e);
        Regroup(text[p..e], text[n..], Tail(text, p));
      } else {
        LastLine(text, p);
      }
    }
  }

  lemma Regroup(line: string, rest: string, tail: string)
    ensures line + ("\n" + (rest + tail)) == (line + ("\n" + rest)) + tail
  {
  }

  lemma LastLine(text: string, p: nat)
    requires p < |text| && EndFrom(text, p, p) == |text|
    ensures Joined(Lines(text, p)) == text[p..] + Tail(text, p)
  {
    EndIsFirst(text, p, p, |text| - 1);
    assert Lines(text, |text|) == [] && text[p..|text|] == text[p..];
    assert Lines(text, p) == [text[p..]] + [];
    JoinedStep(text[p..], []);
  }

  lemma JoinedStep(line: string, lines: seq<string>)
    ensures Joined([line] + lines) == line + ("\n" + Joined(lines))
  {
    assert ([line] + lines)[1..] == lines;
  }

  lemma Cut(text: string, p: nat, e: nat)
    requires p <= e < |text|
    ensures text[p..] == text[p..e] + ([text[e]] + text[e + 1..])
  {
  }

  /** Lines that can stand as they are: no newline in them ends a line, and their last backslashes pair up. */
  predicate Proper(line: string) {
    EndFrom(line, 0, 0) == |line| && Run(line, 0, |line|) % 2 == 0
  }

  lemma {:induction false} RunInside(line: string, text: string, p: nat, i: nat)
    requires p + |line| <= |text| && text[p..p + |line|] == line && i <= |line|
    ensures Run(text, p, p + i) == Run(line, 0, i)
    decreases i
  {
    if i > 0 {
      assert text[p + i - 1] == text[p..p + |line|][i - 1];
      RunInside(line, text, p, i - 1);
    }
  }

  /** A proper line and the newline after it are found again. */
  lemma ProperEnd(line: string, text: string, p: nat)
    requires p + |line| < |text| && text[p..p + |line|] == line && text[p + |line|] == '\n' && Proper(line)
    ensures EndFrom(text, p, p) == p + |line| && Lines(text, p) == [line] + Lines(text, p + |line| + 1)
  {
    forall k | p <= k < p + |line| ensures !Ends(text, p, k) {
      RunInside(line, text, p, k - p);
      assert text[k] == text[p..p + |line|][k - p];
      EndIsFirst(line, 0, 0, k - p);
    }
    SkipTo(text, p, p, p + |line|);
    RunInside(line, text, p, |line|);
  }

  predicate AllProper(lines: seq<string>) {
    lines == [] || (Proper(lines[0]) && AllProper(lines[1..]))
  }

  lemma FirstIs(line: string, more: seq<string>, text: string, p: nat)
    requires p + |line| < |text| && text[p..p + |line|] == line && text[p + |line|] == '\n' && Proper(line)
    requires Lines(text, p + |line| + 1) == more
    ensures Lines(text, p) == [line] + more
  {
    ProperEnd(line, text, p);
  }

  /** Chopping undoes joining. */
  lemma {:induction false} ChopUndoesJoin(lines: seq<string>, text: string, p: nat)
    requires p <= |text| && text[p..] == Joined(lines) && AllProper(lines)
    ensures Lines(text, p) == lines
    decreases |lines|
  {
    if lines != [] {
      var line, more := lines[0], lines[1..];
      assert lines == [line] + more;
      Parts(text, p, line, Joined(more));
      ChopUndoesJoin(more, text, p + |line| + 1);
      FirstIs(line, more, text, p);
    }
  }

  lemma Parts(text: string, p: nat, line: string, rest: string)
    requires p <= |text| && text[p..] == line + "\n" + rest
    ensures p + |line| < |text| && text[p..p + |line|] == line && text[p + |line|] == '\n'
    ensures text[p + |line| + 1..] == rest
  {
    assert text[p..p + |line|] == text[p..][..|line|];
    assert text[p + |line|] == text[p..][|line|];
    assert text[p + |line| + 1..] == text[p..][|line| + 1..];
  }
}
