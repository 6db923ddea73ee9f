/** abspath (gnumake/src/function.c): the absolute form of a file name, built in one buffer. */
module Abspath {

  import opened Wrappers

  /** The components of a name, empty ones included. */
  function Components(name: string): (cs: seq<string>)
    ensures |cs| >= 1
  {
    var i := SlashAt(name, 0);
    if i == |name| then [name] else [name[..i]] + Components(name[i + 1..])
  }

  function SlashAt(name: string, i: nat): (j: nat)
    requires i <= |name|
    ensures i <= j <= |name| && '/' !in name[i..j] && (j < |name| ==> name[j] == '/')
    decreases |name| - i
  {
    if i == |name| || name[i] == '/' then i else SlashAt(name, i + 1)
  }

  /** A component that names a file in a directory. */
  predicate Plain(c: string) {
    c != "" && c != "." && c != ".." && '/' !in c
  }

  ghost predicate AllPlain(path: seq<string>) {
    forall c :: c in path ==> Plain(c)
  }

  /** The absolute name with these components. */
  function Render(path: seq<string>): (s: string)
    ensures |s| >= 1
  {
    if path == [] then "/"
    else if |path| == 1 then "/" + path[0]
    else Render(path[..|path| - 1]) + "/" + path[|path| - 1]
  }

  /** One component after the other; None when the name would become too long. */
  function Walk(path: seq<string>, cs: seq<string>, limit: nat): Option<seq<string>>
    decreases |cs|
  {
    if cs == [] then Some(path)
    else if cs[0] == "" || cs[0] == "." then Walk(path, cs[1..], limit)
    else if cs[0] == ".." then Walk(Parent(path), cs[1..], limit)
    else if |Render(path + [cs[0]])| >= limit then None
    else Walk(path + [cs[0]], cs[1..], limit)
  }

  /** The root is its own parent. */
  function Parent(path: seq<string>): seq<string> {
    if path == [] then [] else path[..|path| - 1]
  }

  /** What a name stands for: from the root, or from the starting directory. */
  function Resolve(name: string, startingDirectory: Option<seq<string>>, limit: nat): Option<seq<string>> {
    if name == "" then None
    else if name[0] == '/' then Walk([], Components(name[1..]), limit)
    else if startingDirectory.None? then None
    else Walk(startingDirectory.value, Components(name), limit)
  }

  lemma {:induction false} ComponentsNoSlash(name: string)
    ensures forall c :: c in Components(name) ==> '/' !in c
  {
    var i := SlashAt(name, 0);
    if i < |name| { ComponentsNoSlash(name[i + 1..]); }
  }

  /** No ".", ".." or empty component is left. */
  lemma {:induction false} WalkPlain(path: seq<string>, cs: seq<string>, limit: nat)
    requires AllPlain(path) && forall c :: c in cs ==> '/' !in c
    ensures Walk(path, cs, limit).Some? ==> AllPlain(Walk(path, cs, limit).value)
    decreases |cs|
  {
    if cs != [] {
      assert cs[0] in cs;
      if cs[0] == "" || cs[0] == "." {
        WalkPlain(path, cs[1..], limit);
      } else if cs[0] == ".." {
        WalkPlain(Parent(path), cs[1..], limit);
      } else {
        WalkPlain(path + [cs[0]], cs[1..], limit);
      }
    }
  }

  lemma ResolvePlain(name: string, startingDirectory: Option<seq<string>>, limit: nat)
    requires startingDirectory.Some? ==> AllPlain(startingDirectory.value)
    ensures Resolve(name, startingDirectory, limit).Some? ==> AllPlain(Resolve(name, startingDirectory, limit).value)
  {
    if name != "" {
      if name[0] == '/' {
        ComponentsNoSlash(name[1..]);
        WalkPlain([], Components(name[1..]), limit);
      } else if startingDirectory.Some? {
        ComponentsNoSlash(name);
        WalkPlain(startingDirectory.value, Components(name), limit);
      }
    }
  }

  lemma {:induction false} SlashFirst(name: string, k: nat, i: nat)
    requires k <= i <= |name| && '/' !in name[k..i] && (i < |name| ==> name[i] == '/')
    ensures SlashAt(name, k) == i
    decreases i - k
  {
    if k < i {
      assert name[k..i][0] != '/' && name[k..i][1..] == name[k + 1..i];
      SlashFirst(name, k + 1, i);
    }
  }

  /** The component up to the slash at i, and the rest. */
  lemma ComponentsAt(name: string, i: nat)
    requires i <= |name| && '/' !in name[..i] && (i < |name| ==> name[i] == '/')
    ensures Components(name) == if i == |name| then [name] else [name[..i]] + Components(name[i + 1..])
  {
    assert name[0..i] == name[..i];
    SlashFirst(name, 0, i);
  }

  lemma RenderPush(path: seq<string>, c: string)
    ensures Render(path + [c]) == (if path == [] then "/" else Render(path) + "/") + c
  {
    assert (path + [c])[..|path|] == path;
  }

  /** The text of a path below the root. */
  function Below(path: seq<string>): string {
    if path == [] then "" else if |path| == 1 then path[0] else path[0] + "/" + Below(path[1..])
  }

  lemma {:induction false} RenderIsBelow(path: seq<string>)
    ensures Render(path) == "/" + Below(path)
  {
    if |path| > 1 {
      var front, last := path[..|path| - 1], path[|path| - 1];
      RenderIsBelow(front);
      BelowPush(front, last);
      assert front + [last] == path;
    }
  }

  lemma {:induction false} BelowPush(path: seq<string>, c: string)
    requires path != []
    ensures Below(path + [c]) == Below(path) + "/" + c
  {
    assert (path + [c])[1..] == path[1..] + [c];
    if |path| > 1 {
      BelowPush(path[1..], c);
    }
  }

  lemma {:induction false} ComponentsOfBelow(path: seq<string>)
    requires path != [] && forall c :: c in path ==> '/' !in c
    ensures Components(Below(path)) == path
  {
    var text := Below(path);
    if |path| == 1 {
      assert text[..|text|] == text;
      ComponentsAt(text, |text|);
    } else {
      var i := |path[0]|;
      assert text == path[0] + ("/" + Below(path[1..]));
      assert text[..i] == path[0] && text[i + 1..] == Below(path[1..]);
      ComponentsAt(text, i);
      ComponentsOfBelow(path[1..]);
    }
  }

  /** Walking along plain components adds them all, as long as the result is short enough. */
  lemma {:induction false} WalkAll(path: seq<string>, cs: seq<string>, limit: nat)
    requires AllPlain(cs) && |Render(path + cs)| < limit
    ensures Walk(path, cs, limit) == Some(path + cs)
    decreases |cs|
  {
    if cs == [] {
      assert path + cs == path;
    } else {
      assert cs[0] in cs;
      assert path + cs == (path + [cs[0]]) + cs[1..];
      RenderGrows(path + [cs[0]], cs[1..]);
      WalkAll(path + [cs[0]], cs[1..], limit);
    }
  }

  lemma {:induction false} RenderGrows(path: seq<string>, more: seq<string>)
    ensures |Render(path)| <= |Render(path + more)|
    decreases |more|
  {
    if more == [] {
      assert path + more == path;
    } else {
      RenderPush(path, more[0]);
      assert path + more == (path + [more[0]]) + more[1..];
      RenderGrows(path + [more[0]], more[1..]);
    }
  }

  /** The path can be written within the limit; the root always can. */
  ghost predicate Short(path: seq<string>, limit: nat) {
    path == [] || |Render(path)| < limit
  }

  lemma ParentShort(path: seq<string>, limit: nat)
    requires Short(path, limit)
    ensures Short(Parent(path), limit)
  {
    if path != [] {
      RenderGrows(Parent(path), [path[|path| - 1]]);
      assert Parent(path) + [path[|path| - 1]] == path;
    }
  }

  lemma {:induction false} WalkShort(path: seq<string>, cs: seq<string>, limit: nat)
    requires Short(path, limit)
    ensures Walk(path, cs, limit).Some? ==> Short(Walk(path, cs, limit).value, limit)
    decreases |cs|
  {
    if cs != [] {
      if cs[0] == "" || cs[0] == "." {
        WalkShort(path, cs[1..], limit);
      } else if cs[0] == ".." {
        ParentShort(path, limit);
        WalkShort(Parent(path), cs[1..], limit);
      } else if |Render(path + [cs[0]])| < limit {
        WalkShort(path + [cs[0]], cs[1..], limit);
      }
    }
  }

  /** The absolute form of a path is resolved to that path, whatever the starting directory. */
  lemma RenderResolved(path: seq<string>, startingDirectory: Option<seq<string>>, limit: nat)
    requires AllPlain(path) && Short(path, limit)
    ensures Resolve(Render(path), startingDirectory, limit) == Some(path)
  {
    RenderIsBelow(path);
    assert Render(path)[1..] == Below(path);
    if path == [] {
      ComponentsAt("", 0);
      assert [""][1..] == [];
    } else {
      ComponentsOfBelow(path);
      assert [] + path == path;
      WalkAll([], path, limit);
    }
  }

  /** The absolute form of an absolute form is itself, also from another starting directory. */
  lemma Idempotent(name: string, start: Option<seq<string>>, start': Option<seq<string>>, limit: nat)
    requires start.Some? ==> AllPlain(start.value) && Short(start.value, limit)
    ensures Resolve(name, start, limit).Some? ==>
      Resolve(Render(Resolve(name, start, limit).value), start', limit) == Resolve(name, start, limit)
  {
    ResolvePlain(name, start, limit);
    if Resolve(name, start, limit).Some? {
      if name[0] == '/' {
        WalkShort([], Components(name[1..]), limit);
      } else {
        WalkShort(start.value, Components(name), limit);
      }
      RenderResolved(Resolve(name, start, limit).value, start', limit);
    }
  }

  lemma {:induction false} ComponentsJoined(a: string, b: string)
    ensures Components(a + "/" + b) == Components(a) + Components(b)
    decreases |a|
  {
    var text, i := a + "/" + b, SlashAt(a, 0);
    assert a[0..i] == a[..i] == text[..i];
    ComponentsAt(text, i);
    if i == |a| {
      assert text[i + 1..] == b && text[..i] == a;
    } else {
      assert text[i + 1..] == a[i + 1..] + "/" + b;
      ComponentsJoined(a[i + 1..], b);
    }
  }

  lemma {:induction false} WalkOn(path: seq<string>, a: seq<string>, b: seq<string>, limit: nat)
    ensures Walk(path, a + b, limit) ==
      if Walk(path, a, limit).None? then None else Walk(Walk(path, a, limit).value, b, limit)
    decreases |a|
  {
    if a == [] {
      assert a + b == b;
    } else {
      assert (a + b)[1..] == a[1..] + b && (a + b)[0] == a[0];
      WalkOn(path, a[1..], b, limit);
      WalkOn(Parent(path), a[1..], b, limit);
      WalkOn(path + [a[0]], a[1..], b, limit);
    }
  }

  /** A relative name is resolved like the absolute one that it makes with the starting directory. */
  lemma RelativeName(name: string, start: seq<string>, start': Option<seq<string>>, limit: nat)
    requires name != "" && name[0] != '/' && AllPlain(start) && Short(start, limit)
    ensures Resolve(name, Some(start), limit) == Resolve(Render(start) + "/" + name, start', limit)
  {
    RenderIsBelow(start);
    assert (Render(start) + "/" + name)[1..] == Below(start) + "/" + name;
    ComponentsJoined(Below(start), name);
    WalkOn([], Components(Below(start)), Components(name), limit);
    RenderResolved(start, None, limit);
    assert Render(start)[1..] == Below(start);
  }

  /** What stands before the last component. */
  function Front(path: seq<string>): (s: string)
    requires path != []
    ensures |s| >= 1 && s[|s| - 1] == '/'
  {
    if |path| == 1 then "/" else Render(path[..|path| - 1]) + "/"
  }

  /** The buffer holds the path, perhaps with a slash left behind by backing up. */
  ghost predicate Holds(text: string, path: seq<string>) {
    AllPlain(path) && (text == Render(path) || (path != [] && text == Render(path) + "/"))
  }

  lemma RenderParts(path: seq<string>)
    requires path != []
    ensures Render(path) == Front(path) + path[|path| - 1]
  {
  }

  /** "/" is the text of the root only. */
  lemma RootText(text: string, path: seq<string>)
    requires Holds(text, path)
    ensures |text| == 1 <==> path == []
    ensures path == [] ==> text == "/"
  {
    if path != [] {
      RenderParts(path);
      assert Plain(path[|path| - 1]);
    }
  }

  lemma LastSlash(text: string, path: seq<string>)
    requires Holds(text, path)
    ensures |text| >= 1
    ensures text[|text| - 1] == '/' <==> path == [] || text == Render(path) + "/"
  {
    if path != [] && text == Render(path) {
      RenderParts(path);
      assert Plain(path[|path| - 1]);
      assert text[|text| - 1] == path[|path| - 1][|path[|path| - 1]| - 1];
    }
  }

  /** Up to the last component the last slash is the one before it. */
  lemma SlashIn(text: string, front: string, last: string, d: nat)
    requires front + last <= text && '/' !in last && |front| >= 1 && front[|front| - 1] == '/'
    requires |front| <= d <= |front| + |last|
    ensures text[d - 1] == '/' <==> d == |front|
  {
    assert text[d - 1] == (front + last)[d - 1];
    if d > |front| {
      assert text[d - 1] == last[d - 1 - |front|];
    }
  }

  /** Back up to the previous component, unless at the root already. */
  method BackUp(apath: array<char>, dest0: nat, ghost path: seq<string>) returns (dest: nat)
    requires dest0 <= apath.Length && Holds(apath[..dest0], path)
    ensures dest <= dest0 && Holds(apath[..dest], Parent(path))
  {
    dest := dest0;
    RootText(apath[..dest0], path);
    if dest > 1 {
      RenderParts(path);
      ghost var front, last := Front(path), path[|path| - 1];
      assert Plain(last);
      ghost var n := |front|;
      ghost var text := apath[..dest0];
      assert text[..n + |last|] == front + last;
      dest := dest - 1;
      SlashIn(text, front, last, dest);
      while apath[dest - 1] != '/'
        invariant n <= dest <= n + |last| && dest < dest0
        invariant apath[dest - 1] == '/' <==> dest == n
        decreases dest
      {
        dest := dest - 1;
        SlashIn(text, front, last, dest);
      }
      assert apath[..dest] == text[..dest] == front;
      BackedUp(path);
    }
  }

  lemma BackedUp(path: seq<string>)
    requires path != [] && AllPlain(path)
    ensures Holds(Front(path), Parent(path))
  {
  }

  /** Add a component, after a slash if there is none; false when there is no room. */
  method Append(apath: array<char>, dest0: nat, name: string, start: nat, end: nat, ghost path: seq<string>)
    returns (ok: bool, dest: nat)
    requires start <= end <= |name| && Plain(name[start..end])
    requires dest0 < apath.Length && Holds(apath[..dest0], path)
    modifies apath
    ensures ok <==> |Render(path + [name[start..end]])| < apath.Length - 1
    ensures ok ==> dest < apath.Length - 1 && Holds(apath[..dest], path + [name[start..end]])
  {
    ghost var c := name[start..end];
    dest := EndWithSlash(apath, dest0, path);
    ghost var before := apath[..dest];
    Pushed(path, c, before);
    ok := dest + (end - start) < apath.Length - 1;
    if ok {
      dest := CopyAt(apath, dest, name[start..end]);
    }
  }

  method EndWithSlash(apath: array<char>, dest0: nat, ghost path: seq<string>) returns (dest: nat)
    requires dest0 < apath.Length && Holds(apath[..dest0], path)
    modifies apath
    ensures dest <= apath.Length && apath[..dest] == if path == [] then "/" else Render(path) + "/"
  {
    RootText(apath[..dest0], path);
    LastSlash(apath[..dest0], path);
    dest := dest0;
    if apath[dest - 1] != '/' {
      apath[dest] := '/';
      dest := dest + 1;
    }
  }

  lemma Pushed(path: seq<string>, c: string, before: string)
    requires AllPlain(path) && Plain(c) && before == if path == [] then "/" else Render(path) + "/"
    ensures |Render(path + [c])| == |before| + |c| && Holds(before + c, path + [c])
  {
    RenderPush(path, c);
  }

  /** The rest of the walk, when the components from position i on are still to come. */
  ghost function Ahead(path: seq<string>, name: string, i: nat, limit: nat): Option<seq<string>>
    requires i <= |name|
  {
    Walk(path, Components(name[i..]), limit)
  }

  lemma SkipSlash(path: seq<string>, name: string, i: nat, limit: nat)
    requires i < |name| && name[i] == '/'
    ensures Ahead(path, name, i, limit) == Ahead(path, name, i + 1, limit)
  {
    ComponentsAt(name[i..], 0);
    assert name[i..][1..] == name[i + 1..];
    assert Components(name[i..])[0] == "" && Components(name[i..])[1..] == Components(name[i + 1..]);
  }

  lemma NothingAhead(path: seq<string>, name: string, limit: nat)
    ensures Ahead(path, name, |name|, limit) == Some(path)
  {
    ComponentsAt("", 0);
    assert [""][1..] == [];
  }

  /** One component, and what comes after it. */
  lemma StepOver(path: seq<string>, name: string, start: nat, end: nat, limit: nat)
    requires start < end <= |name| && '/' !in name[start..end] && (end < |name| ==> name[end] == '/')
    ensures var c := name[start..end];
      && (c == "." ==> Ahead(path, name, start, limit) == Ahead(path, name, end, limit))
      && (c == ".." ==> Ahead(path, name, start, limit) == Ahead(Parent(path), name, end, limit))
      && (c != "." && c != ".." ==>
        Ahead(path, name, start, limit) ==
          if |Render(path + [c])| >= limit then None else Ahead(path + [c], name, end, limit))
  {
    var c, rest := name[start..end], name[start..];
    var n := end - start;
    assert rest[..n] == c;
    ComponentsAt(rest, n);
    if end < |name| {
      assert rest[n + 1..] == name[end + 1..];
      WalkStep(path, c, Components(name[end + 1..]), limit);
      SkipSlash(path, name, end, limit);
      SkipSlash(Parent(path), name, end, limit);
      SkipSlash(path + [c], name, end, limit);
    } else {
      assert rest == c && [c] == [c] + [];
      WalkStep(path, c, [], limit);
      NothingAhead(path, name, limit);
      NothingAhead(Parent(path), name, limit);
      NothingAhead(path + [c], name, limit);
    }
  }

  lemma WalkStep(path: seq<string>, c: string, more: seq<string>, limit: nat)
    requires c != ""
    ensures c == "." ==> Walk(path, [c] + more, limit) == Walk(path, more, limit)
    ensures c == ".." ==> Walk(path, [c] + more, limit) == Walk(Parent(path), more, limit)
    ensures c != "." && c != ".." ==>
      Walk(path, [c] + more, limit) == if |Render(path + [c])| >= limit then None else Walk(path + [c], more, limit)
  {
    assert ([c] + more)[1..] == more;
  }

  /** Skip slashes and find the end of the next component. */
  method NextComponent(name: string, i: nat, ghost path: seq<string>, ghost limit: nat) returns (start: nat, end: nat)
    requires i <= |name|
    ensures i <= start <= end <= |name| && '/' !in name[start..end] && (end < |name| ==> name[end] == '/')
    ensures end == start ==> end == |name|
    ensures Ahead(path, name, i, limit) == Ahead(path, name, start, limit)
  {
    start := i;
    while start < |name| && name[start] == '/'
      invariant i <= start <= |name|
      invariant Ahead(path, name, i, limit) == Ahead(path, name, start, limit)
    {
      SkipSlash(path, name, start, limit);
      start := start + 1;
    }
    end := start;
    while end < |name| && name[end] != '/'
      invariant start <= end <= |name| && '/' !in name[start..end]
    {
      end := end + 1;
    }
  }

  /** The loop of abspath, from a buffer that holds path. */
  method WalkName(apath: array<char>, dest0: nat, name: string, i: nat, ghost path0: seq<string>)
    returns (ok: bool, dest: nat, ghost path: seq<string>)
    requires i <= |name| && dest0 < apath.Length && Holds(apath[..dest0], path0)
    modifies apath
    ensures ok <==> Ahead(path0, name, i, apath.Length - 1).Some?
    ensures ok ==>
      dest < apath.Length && path == Ahead(path0, name, i, apath.Length - 1).value && Holds(apath[..dest], path)
  {
    ghost var limit := apath.Length - 1;
    ok, dest, path := true, dest0, path0;
    var start, end := i, i;
    while start < |name|
      invariant start <= |name| && dest < apath.Length && Holds(apath[..dest], path)
      invariant Ahead(path, name, start, limit) == Ahead(path0, name, i, limit)
      decreases |name| - start
    {
      start, end := NextComponent(name, start, path, limit);
      if start < end {
        StepOver(path, name, start, end, limit);
        var c := name[start..end];
        if c == ".." {
          dest := BackUp(apath, dest, path);
          path := Parent(path);
        } else if c != "." {
          ok, dest := Append(apath, dest, name, start, end, path);
          if !ok { return; }
          path := path + [c];
        }
      }
      start := end;
    }
    NothingAhead(path, name, limit);
  }

  /** abspath, where starting directory and buffer size are those of the program. */
  method AbsoluteName(name: string, startingDirectory: Option<seq<string>>, pathMax: nat) returns (r: Option<string>)
    requires pathMax >= 2
    requires startingDirectory.Some? ==>
      AllPlain(startingDirectory.value) && |Render(startingDirectory.value)| < pathMax
    ensures r == match Resolve(name, startingDirectory, pathMax) case None => None case Some(path) => Some(Render(path))
  {
    if name == "" { return None; }
    var apath := new char[pathMax + 1](_ => '\0');
    var dest, i := 1, 1;
    ghost var path := [];
    if name[0] != '/' {
      if startingDirectory.None? { return None; }
      i := 0;
      dest := CopyAt(apath, 0, Render(startingDirectory.value));
      path := startingDirectory.value;
      assert name[0..] == name;
    } else {
      apath[0] := '/';
      assert apath[..1] == "/";
    }
    var ok;
    ok, dest, path := WalkName(apath, dest, name, i, path);
    if !ok { return None; }
    RootText(apath[..dest], path);
    LastSlash(apath[..dest], path);
    if dest > 1 && apath[dest - 1] == '/' {
      dest := dest - 1;
      assert apath[..dest] == apath[..dest + 1][..dest] == Render(path);
    }
    r := Some(apath[..dest]);
  }

  /** memcpy to the given place. */
  method CopyAt(apath: array<char>, at: nat, text: string) returns (dest: nat)
    requires at + |text| <= apath.Length
    modifies apath
    ensures dest == at + |text| && apath[..dest] == old(apath[..at]) + text
  {
    dest := at;
    while dest < at + |text|
      invariant at <= dest <= at + |text| && apath[..at] == old(apath[..at]) && apath[at..dest] == text[..dest - at]
    {
      apath[dest] := text[dest - at];
      dest := dest + 1;
    }
    assert apath[..dest] == apath[..at] + apath[at..dest];
  }
}
