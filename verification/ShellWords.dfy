/**
 * Reference reading of a simple command: quoting as in section 2.2 of POSIX.1-2017 XCU,
 * then field splitting at blanks. The fast tokenizer of make is compared with it.
 */
module ShellWords {

  import opened CommandLine
  import opened Wrappers

  /** A line after quoting has been resolved. */
  datatype Item =
    | Sep            // an unquoted blank
    | Ch(c: char)    // a character of a word, quotes removed
    | Mark           // the end of a quoted string: a word exists even if nothing is in it
    | Cont           // a line continuation, removed

  function Prepend(x: Item, rest: Option<seq<Item>>): Option<seq<Item>> {
    if rest.None? then None else Some([x] + rest.value)
  }

  /** To be quoted by section 2.2 of POSIX.1-2017 XCU, as are blanks, newline, backslash and single quote. */
  const OPERATORS: set<char> := {'|', '&', ';', '<', '>', '(', ')', '$', '`', '"'}

  /** What it says may have to be quoted: patterns, comments and tildes. */
  const MAY_BE_SPECIAL: set<char> := {'*', '?', '[', '#', '~'}

  /** What is special where reserved words are recognized, in patterns, or in shells of old. */
  const ELSEWHERE: set<char> := {'{', '}', '!', ']', '^'}

  /** A character that has to be left to a shell, unless it is quoted. */
  predicate NeedsShell(c: char) {
    c in OPERATORS || c in MAY_BE_SPECIAL || c in ELSEWHERE
  }

  /** The fast path refuses just these. */
  lemma SpecialIff(c: char)
    ensures c in SH_CHARS <==> NeedsShell(c)
  {
  }

  /**
   * The items of the command line that starts at i and ends at an unquoted newline. None
   * where there is no meaning without a shell: an open quote, an unquoted backslash at the
   * very end, a character that has to be left to a shell.
   */
  function Items(line: string, i: nat): Option<seq<Item>>
    requires i <= |line|
    decreases |line| - i, 1
  {
    if i == |line| || line[i] == '\n' then Some([])
    else
      var c := line[i];
      if c == ' ' || c == '\t' then Prepend(Sep, Items(line, i + 1))
      else if c == '\\' then
        if i + 1 == |line| then None
        else if line[i + 1] == '\n' then Prepend(Cont, Items(line, i + 2))
        else Prepend(Ch(line[i + 1]), Items(line, i + 2))
      else if c == '\'' then QuotedItems(line, i + 1)
      else if NeedsShell(c) then None
      else Prepend(Ch(c), Items(line, i + 1))
  }

  function QuotedItems(line: string, i: nat): Option<seq<Item>>
    requires i <= |line|
    decreases |line| - i, 2
  {
    if i == |line| then None
    else if line[i] == '\'' then Prepend(Mark, Items(line, i + 1))
    else Prepend(Ch(line[i]), QuotedItems(line, i + 1))
  }

  /** The words of a list of items, when `cur` has been read of a word that is open or not. */
  function Words(items: seq<Item>, cur: string, open: bool): seq<string> {
    if items == [] then if open then [cur] else []
    else
      match items[0]
      case Sep => (if open then [cur] else []) + Words(items[1..], "", false)
      case Ch(c) => Words(items[1..], cur + [c], true)
      case Mark => Words(items[1..], cur, true)
      case Cont => Words(items[1..], cur, open)
  }

  /**
   * An empty quoted word is followed by a continuation, blanks and another word. The fast
   * path then skips the blanks as if it stood before the word, and joins the two words.
   */
  ghost predicate Glued(items: seq<Item>, cur: string, open: bool) {
    if items == [] then false
    else
      match items[0]
      case Sep => Glued(items[1..], "", false)
      case Ch(c) => Glued(items[1..], cur + [c], true)
      case Mark => Glued(items[1..], cur, true)
      case Cont =>
        || (open && cur == "" && |items| > 1 && items[1] == Sep && Words(items[1..], "", false) != [])
        || Glued(items[1..], cur, open)
  }

  // ---- blanks ----

  function Seps(n: nat): (r: seq<Item>)
    ensures |r| == n
  {
    if n == 0 then [] else [Sep] + Seps(n - 1)
  }

  /** A run of blanks is a run of separators. */
  lemma {:induction false} BlankRun(line: string, i: nat)
    requires i <= |line| && Items(line, i).Some?
    ensures var j := SkipBlanks(line, i);
      Items(line, j).Some? && Items(line, i).value == Seps(j - i) + Items(line, j).value
    decreases |line| - i
  {
    if i < |line| && IsBlank(line[i]) {
      BlankRun(line, i + 1);
      var j := SkipBlanks(line, i);
      Associate([Sep], Seps(j - (i + 1)), Items(line, j).value);
    }
  }

  lemma Associate(x: seq<Item>, y: seq<Item>, z: seq<Item>)
    ensures x + (y + z) == (x + y) + z
  {}

  lemma {:induction false} SepRun(k: nat, rest: seq<Item>)
    ensures Words(Seps(k) + rest, "", false) == Words(rest, "", false)
    ensures Glued(Seps(k) + rest, "", false) == Glued(rest, "", false)
  {
    if k > 0 {
      SepRun(k - 1, rest);
      assert (Seps(k) + rest)[1..] == Seps(k - 1) + rest;
    } else {
      assert Seps(k) + rest == rest;
    }
  }

  // ---- what an empty open word costs ----

  lemma {:induction false} NoWords(items: seq<Item>, open: bool)
    requires Words(items, "", false) == []
    ensures Words(items, "", open) == if open then [""] else []
    ensures !Glued(items, "", open)
  {
    if items != [] {
      match items[0]
      case Sep => NoWords(items[1..], false);
      case Cont => NoWords(items[1..], open);
      case Ch(c) => SomeWord(items[1..], "" + [c]);
      case Mark => SomeWord(items[1..], "");
    }
  }

  lemma {:induction false} SomeWord(items: seq<Item>, cur: string)
    ensures Words(items, cur, true) != []
  {
    if items != [] {
      match items[0]
      case Sep =>
      case Cont => SomeWord(items[1..], cur);
      case Ch(c) => SomeWord(items[1..], cur + [c]);
      case Mark => SomeWord(items[1..], cur);
    }
  }

  /** Keeping an empty word open gains at most one word, and only where words get glued. */
  lemma {:induction false} OpenCost(items: seq<Item>)
    requires items != [] && items[0] != Sep && Words(items, "", false) != []
    ensures |Words(items, "", true)| <= |Words(items, "", false)| + (if Glued(items, "", true) then 1 else 0)
  {
    if items[0] == Cont && !(|items| > 1 && items[1] == Sep) {
      OpenCost(items[1..]);
    }
  }

  // ---- the fast path against the reference ----

  /** A word has been started. */
  predicate Open(st: State) {
    st.cur != "" || st.lastEmpty
  }

  /** The relation between the arguments found and the words of the reference. */
  ghost predicate Related(args: seq<string>, st: State, items: seq<Item>) {
    var words := st.args + Words(items, st.cur, Open(st));
    && (!Glued(items, st.cur, Open(st)) ==> args == words)
    && (Glued(items, st.cur, Open(st)) ==> |args| < |words|)
  }

  lemma {:induction false} Agree(line: string, i: nat, st: State)
    requires i <= |line| && st.quote == '\0'
    requires Scan(line, true, i, st).Fast? && Items(line, i).Some?
    requires Open(st) || i == |line| || !IsBlank(line[i])
    ensures Related(Scan(line, true, i, st).args, st, Items(line, i).value)
    decreases |line| - i, 1
  {
    if i < |line| && line[i] != '\n' {
      var c := line[i];
      if c == '=' {
        Agree(line, i + 1, st.(wordHasEquals := true, cur := st.cur + "="));
      } else if c == '\\' {
        if line[i + 1] == '\n' {
          AgreeContinuation(line, i, st);
        } else {
          Agree(line, i + 2, st.(cur := st.cur + [line[i + 1]]));
        }
      } else if c == '\'' {
        AgreeQuoted(line, i + 1, st.(quote := c));
      } else if IsBlank(c) {
        AgreeBlank(line, i, st);
      } else {
        Agree(line, i + 1, st.(cur := st.cur + [c]));
      }
    }
  }

  lemma {:induction false} AgreeBlank(line: string, i: nat, st: State)
    requires i < |line| && st.quote == '\0' && IsBlank(line[i]) && Open(st)
    requires Scan(line, true, i, st).Fast? && Items(line, i).Some?
    ensures Related(Scan(line, true, i, st).args, st, Items(line, i).value)
    decreases |line| - i, 0
  {
    var next := EndWord(st).value;
    var j := SkipBlanks(line, i + 1);
    BlankRun(line, i + 1);
    Agree(line, j, next);
    SkipAfterWord(Scan(line, true, i, st).args, st, next, j - (i + 1), Items(line, j).value);
  }

  /** Closing a word and skipping k more separators. */
  lemma SkipAfterWord(args: seq<string>, st: State, next: State, k: nat, rest: seq<Item>)
    requires Open(st) && next.args == st.args + [st.cur] && next.cur == "" && !next.lastEmpty
    requires Related(args, next, rest)
    ensures Related(args, st, [Sep] + (Seps(k) + rest))
  {
    SepRun(k, rest);
    assert ([Sep] + (Seps(k) + rest))[1..] == Seps(k) + rest;
    assert st.args + ([st.cur] + Words(rest, "", false)) == next.args + Words(rest, "", false);
  }

  lemma {:induction false} AgreeContinuation(line: string, i: nat, st: State)
    requires st.quote == '\0' && BackslashNewline(line, i)
    requires Scan(line, true, i, st).Fast? && Items(line, i).Some?
    ensures Related(Scan(line, true, i, st).args, st, Items(line, i).value)
    decreases |line| - i, 0
  {
    if st.cur != "" {
      Agree(line, i + 2, st);
    } else {
      var j := SkipBlanks(line, i + 2);
      BlankRun(line, i + 2);
      Agree(line, j, st);
      StartsUnblank(line, j);
      SkipAfterContinuation(Scan(line, true, i, st).args, st, j - (i + 2), Items(line, j).value);
    }
  }

  lemma StartsUnblank(line: string, j: nat)
    requires j <= |line| && (j < |line| ==> !IsBlank(line[j])) && Items(line, j).Some?
    ensures Items(line, j).value != [] ==> Items(line, j).value[0] != Sep
  {
    if j < |line| { QuotedUnblank(line, j + 1); }
  }

  lemma QuotedUnblank(line: string, i: nat)
    requires i <= |line|
    ensures QuotedItems(line, i).Some? ==> QuotedItems(line, i).value != [] && QuotedItems(line, i).value[0] != Sep
  {
  }

  /** Skipping k separators after a continuation, with nothing read of the current word. */
  lemma SkipAfterContinuation(args: seq<string>, st: State, k: nat, rest: seq<Item>)
    requires st.cur == "" && (rest != [] ==> rest[0] != Sep)
    requires Related(args, st, rest)
    ensures Related(args, st, [Cont] + (Seps(k) + rest))
  {
    var items := Seps(k) + rest;
    SepRun(k, rest);
    assert ([Cont] + items)[1..] == items;
    if st.lastEmpty && k > 0 {
      OpenSkipped(k, rest);
    } else if k == 0 {
      assert items == rest;
    }
  }

  lemma OpenSkipped(k: nat, rest: seq<Item>)
    requires 0 < k && (rest != [] ==> rest[0] != Sep)
    ensures Words(Seps(k) + rest, "", true) == [""] + Words(rest, "", false)
    ensures if Glued([Cont] + (Seps(k) + rest), "", true)
      then |Words(rest, "", true)| <= |Words(rest, "", false)| + (if Glued(rest, "", true) then 1 else 0)
      else Words(rest, "", true) == [""] && Words(rest, "", false) == [] && !Glued(rest, "", true)
  {
    ClosedBySep(k, rest);
    if Words(rest, "", false) == [] {
      NoWords(rest, true);
      NoWords(rest, false);
    } else {
      OpenCost(rest);
    }
  }

  /** What one or more separators do to an open empty word after a continuation. */
  lemma ClosedBySep(k: nat, rest: seq<Item>)
    requires 0 < k
    ensures Words(Seps(k) + rest, "", true) == [""] + Words(rest, "", false)
    ensures Glued([Cont] + (Seps(k) + rest), "", true) <==> Words(rest, "", false) != [] || Glued(rest, "", false)
  {
    var items := Seps(k) + rest;
    SepRun(k - 1, rest);
    assert items[1..] == Seps(k - 1) + rest;
    SepRun(k, rest);
    assert ([Cont] + items)[1..] == items;
  }

  lemma TwoChars(rest: seq<Item>, c: char, d: char, cur: string, open: bool)
    ensures Words([Ch(c)] + ([Ch(d)] + rest), cur, open) == Words(rest, cur + [c, d], true)
    ensures Glued([Ch(c)] + ([Ch(d)] + rest), cur, open) == Glued(rest, cur + [c, d], true)
  {
    assert ([Ch(c)] + ([Ch(d)] + rest))[1..] == [Ch(d)] + rest;
    assert ([Ch(d)] + rest)[1..] == rest;
    assert cur + [c] + [d] == cur + [c, d];
  }

  lemma {:induction false} AgreeQuoted(line: string, i: nat, st: State)
    requires i <= |line| && st.quote == '\''
    requires Scan(line, true, i, st).Fast? && QuotedItems(line, i).Some?
    ensures Related(Scan(line, true, i, st).args, st, QuotedItems(line, i).value)
    decreases |line| - i, 0
  {
    var c := line[i];
    if c == '\'' {
      Agree(line, i + 1, st.(quote := '\0', lastEmpty := st.lastEmpty || st.cur == ""));
    } else if BackslashNewline(line, i) {
      AgreeQuoted(line, i + 2, st.(cur := st.cur + "\\\n"));
      var rest := QuotedItems(line, i + 2).value;
      assert QuotedItems(line, i + 1).value == [Ch('\n')] + rest;
      TwoChars(rest, '\\', '\n', st.cur, Open(st));
    } else {
      AgreeQuoted(line, i + 1, st.(cur := st.cur + [c]));
    }
  }

  /** Position of the newline that ends the command line: neither quoted nor continued. */
  function LineEnd(line: string, i: nat, quote: Option<char>): Option<nat>
    requires i <= |line|
    decreases |line| - i
  {
    if i == |line| then None
    else if quote.Some? then LineEnd(line, i + 1, if line[i] == quote.value then None else quote)
    else if line[i] == '\n' then Some(i)
    else if line[i] == '\\' && i + 1 < |line| then LineEnd(line, i + 2, None)
    else LineEnd(line, i + 1, if line[i] == '\'' then Some('\'') else None)
  }

  lemma {:induction false} BlanksBeforeEnd(line: string, i: nat)
    requires i <= |line|
    ensures LineEnd(line, i, None) == LineEnd(line, SkipBlanks(line, i), None)
    decreases |line| - i
  {
    if i < |line| && IsBlank(line[i]) { BlanksBeforeEnd(line, i + 1); }
  }

  /** An accepted line ends where the reference says, and has a meaning unless it ends in a backslash. */
  lemma {:induction false} Accepted(line: string, i: nat, st: State)
    requires i <= |line| && st.quote in {'\0', '\''} && Scan(line, true, i, st).Fast?
    ensures Scan(line, true, i, st).rest == LineEnd(line, i, if st.quote == '\0' then None else Some(st.quote))
    ensures st.quote == '\0' && Items(line, i).None? ==> line != "" && line[|line| - 1] == '\\'
    ensures st.quote == '\'' && QuotedItems(line, i).None? ==> line != "" && line[|line| - 1] == '\\'
    decreases |line| - i
  {
    if i < |line| {
      var c := line[i];
      SpecialIff(c);
      if st.quote == '\'' {
        if c == '\'' {
          Accepted(line, i + 1, st.(quote := '\0', lastEmpty := st.lastEmpty || st.cur == ""));
        } else if BackslashNewline(line, i) {
          Accepted(line, i + 2, st.(cur := st.cur + "\\\n"));
          assert QuotedItems(line, i) == Prepend(Ch(c), QuotedItems(line, i + 1));
        } else {
          Accepted(line, i + 1, st.(cur := st.cur + [c]));
        }
      } else if c == '=' {
        Accepted(line, i + 1, st.(wordHasEquals := true, cur := st.cur + "="));
      } else if c == '\\' {
        if BackslashNewline(line, i) {
          var j := if st.cur == "" then SkipBlanks(line, i + 2) else i + 2;
          Accepted(line, j, st);
          BlanksBeforeEnd(line, i + 2);
          BlanksKeepMeaning(line, i + 2);
        } else if i + 1 < |line| {
          Accepted(line, i + 2, st.(cur := st.cur + [line[i + 1]]));
        } else {
          Accepted(line, i + 1, st);
        }
      } else if c == '\'' {
        Accepted(line, i + 1, st.(quote := c));
      } else if c != '\n' {
        if IsBlank(c) {
          Accepted(line, SkipBlanks(line, i + 1), EndWord(st).value);
          BlanksBeforeEnd(line, i + 1);
          BlanksKeepMeaning(line, i + 1);
        } else {
          Accepted(line, i + 1, st.(cur := st.cur + [c]));
        }
      }
    }
  }

  lemma {:induction false} BlanksKeepMeaning(line: string, i: nat)
    requires i <= |line|
    ensures Items(line, i).None? ==> Items(line, SkipBlanks(line, i)).None?
    decreases |line| - i
  {
    if i < |line| && IsBlank(line[i]) { BlanksKeepMeaning(line, i + 1); }
  }

  /**
   * Whenever the fast path accepts a line that has a meaning without a shell, it finds the
   * words of the reference exactly when no empty quoted word is glued to a later one. The
   * only accepted lines without such a meaning end in a backslash.
   */
  lemma FastPathIsReference(line: string)
    requires line != "" ==> !IsBlank(line[0])
    requires Scan(line, true, 0, START).Fast?
    ensures Scan(line, true, 0, START).rest == LineEnd(line, 0, None)
    ensures Items(line, 0).None? ==> line != "" && line[|line| - 1] == '\\'
    ensures Items(line, 0).Some? ==>
              (Scan(line, true, 0, START).args == Words(Items(line, 0).value, "", false)
               <==> !Glued(Items(line, 0).value, "", false))
  {
    Accepted(line, 0, START);
    if Items(line, 0).Some? { Agree(line, 0, START); }
  }

  /** Without a continuation nothing is glued, so argv is always that of the reference. */
  lemma NoContinuationNoGlue(line: string)
    requires line != "" ==> !IsBlank(line[0])
    requires Scan(line, true, 0, START).Fast? && Items(line, 0).Some?
    requires forall i: nat :: !BackslashNewline(line, i)
    ensures Scan(line, true, 0, START).args == Words(Items(line, 0).value, "", false)
  {
    NoCont(line, 0);
    NeverGlued(Items(line, 0).value, "", false);
    FastPathIsReference(line);
  }

  lemma {:induction false} NoCont(line: string, i: nat)
    requires i <= |line| && forall k: nat :: !BackslashNewline(line, k)
    ensures Items(line, i).Some? ==> Cont !in Items(line, i).value
    ensures QuotedItems(line, i).Some? ==> Cont !in QuotedItems(line, i).value
    decreases |line| - i
  {
    if i < |line| {
      assert !BackslashNewline(line, i);
      NoCont(line, i + 1);
      if i + 1 < |line| { NoCont(line, i + 2); }
    }
  }

  lemma {:induction false} NeverGlued(items: seq<Item>, cur: string, open: bool)
    requires Cont !in items
    ensures !Glued(items, cur, open)
  {
    if items != [] {
      match items[0]
      case Sep => NeverGlued(items[1..], "", false);
      case Ch(c) => NeverGlued(items[1..], cur + [c], true);
      case Mark => NeverGlued(items[1..], cur, true);
    }
  }

  /** '' backslash newline blank b: two words in the reference. */
  lemma GluedReference()
    ensures var line := "''\\\n b"; Items(line, 0).Some? && Words(Items(line, 0).value, "", false) == ["", "b"]
  {
    var line := "''\\\n b";
    var b, sb, csb := [Ch('b')], [Sep, Ch('b')], [Cont, Sep, Ch('b')];
    assert Items(line, 5).value == b;
    assert Items(line, 4).value == sb;
    assert Items(line, 2).value == csb;
    assert QuotedItems(line, 1).value == [Mark] + csb;
    assert b[1..] == [] && sb[1..] == b && csb[1..] == sb && ([Mark] + csb)[1..] == csb;
    assert "" + ['b'] == "b";
    assert Words(b, "", false) == ["b"];
    assert Words(sb, "", true) == ["", "b"];
  }

  lemma LastWordB(line: string, st: State)
    requires |line| == 6 && line[5] == 'b' && st == START.(lastEmpty := true)
    ensures Scan(line, true, 5, st) == Fast(["b"], None)
  {
    assert "" + ['b'] == "b";
    assert forall k :: 0 <= k < |SH_CMDS| ==> SH_CMDS[k] != "b";
    NotListed("b", |SH_CMDS|);
    assert Scan(line, true, 6, st.(cur := "b")) == Fast(["b"], None);
  }

  /** The same line on the fast path: one word. */
  lemma GluedExample()
    ensures Scan("''\\\n b", true, 0, START) == Fast(["b"], None)
  {
    var line := "''\\\n b";
    assert SkipBlanks(line, 4) == 5;
    var open := START.(lastEmpty := true);
    LastWordB(line, open);
    assert Scan(line, true, 2, open) == Fast(["b"], None);
    assert Scan(line, true, 1, START.(quote := '\'')) == Fast(["b"], None);
  }
}
